# A verified model of the HLS live-stream downloader's core

This project models, in Dafny, the sequential core of a Go program that archives an HLS live stream. The program polls a playlist again and again and downloads every media segment it has not fetched before. The model covers three parts of the Go code:

- **The M3U8 parser and segment-identity deriver** (`internal/parser/m3u8_parser.go`, module `Parser`):
  - classifying a document as a master or a media playlist by its markers;
  - reading `#EXT-X-MEDIA-SEQUENCE`;
  - the line-scanning loop that resolves every reference line against the playlist URL, including the inheritance of the base URL's query;
  - deriving a segment's deduplication key from its URL.
- **The deduplication ledger** (`internal/downloader/downloader.go`, module `Downloader`):
  - the class `HLSDownloader` with its `downloaded` map;
  - the filter loop `filterNewSegments` and `processSegmentURL`;
  - one poll of `processM3U8`, minus its network fetch.
- **Output naming, the retry loop and the batch download** (`internal/storage/file_manager.go`, module `Storage`):
  - `DeriveOutputDir` and `generateFilename`;
  - `downloadSingleFile` over an abstract attempt outcome, and the retry loop `downloadFileWithRetry`;
  - the outcome fold of `ConcurrentDownload`.

Three supporting modules model the parts of the Go standard library those files rely on:

- `Text`: `strings.TrimSpace`, `TrimSuffix`, `Cut`, `Split`, `ReplaceAll`, `strconv.Atoi`, `%d` and `%05d`, and `unicode.IsSpace`.
- `Urls`: `url.Parse`, `(*URL).String` and `(*URL).ResolveReference` with its path merging and dot-segment removal (section 5.2 of RFC 3986).
- `Paths`: `path.Base`, `Ext`, `Clean` and `Join`.

The model's `url.Parse` decodes `%XX` escapes and reads the resulting bytes as UTF-8. That is how `strings.Map` in `DeriveOutputDir` later sees the path.

The module `Scenarios` works concrete URLs such as `https://cdn.example.com/live/` through the model, starting from `url.Parse`.

Imperative code stays imperative:

- `extractURLsFromContent`, `downloadFileWithRetry`, the worker loop of `ConcurrentDownload` and `filterNewSegments` are `method`s with loops.
- `filterNewSegments` is a method of the class `HLSDownloader` and updates the `downloaded` field in place.
- Each method is proved equal to a recursive specification function (`ScanURLs`, `Retry`, `Collect`, `Filter`).
- The properties the program relies on are lemmas about those functions.

Integers are unbounded in the model. Go's `int` is taken to be 64 bits wide, so `strconv.Atoi` fails above 2^63 - 1.

## Behaviour worth knowing

Where the code does something a reader might not expect, the model follows the code:

- **A segment's identity keeps its leading zeros.** `ExtractSegmentID` identifies `segment00042.ts` by `"00042"`, not by `42`. `strconv.Atoi` only checks that the digit run fits in `int` (m3u8_parser.go:147-149). See `Scenarios.LeadingZerosKept`.
- **A trailing slash does not trigger the host fallback.** `DeriveOutputDir("https://cdn.example.com/live/")` is `live_hls_segments`, because `path.Base("/live/")` is `live`. Only an empty path or `/` falls back to the host (file_manager.go:128-132). See `Scenarios.LiveDirectory` and `Scenarios.HostDirectory`.
- **The media sequence comes from the first tag followed by a digit.** The regular expression `#EXT-X-MEDIA-SEQUENCE:(\d+)` takes its leftmost match, and that is the first occurrence of the tag that is *followed by a digit*, not simply the first occurrence of the tag. `MediaSequence` models that leftmost-match rule.
- **The retry delays ignore `RetryDelayBase`.** The pause after failed attempt `i` is `i + 1` seconds. The configured base delay is never read (file_manager.go:87-89).
- **A partial file counts as a success.** When `io.Copy` fails, the partly written file stays on disk. The next attempt that gets status 200 finds it with `os.Stat` and reports success (file_manager.go:107-118). See `Storage.PartialFileAccepted`.
- **An escaped UTF-8 sequence is one character.** `https://cdn.example.com/caf%C3%A9` gives `caf__hls_segments`: the two escaped bytes decode to `é`, and `strings.Map` replaces that one rune with one `_`. See `Scenarios.AccentedDirectory`.
- **A path of slashes only gains a directory level.** When a segment URL's path is made of slashes only, `path.Base` gives `/`. The `.ts` base name is then `/.ts`, and the joined file name gains a directory level. See `Scenarios.RootPathBaseName`. `Storage.FilenameBase` therefore excludes that case.

## Model

| member | source | states |
|---|---|---|
| Parser.Parse | internal/parser/m3u8_parser.go:31-59 | succeeds iff the content has a master or media marker and the base URL parses; neither marker gives the unrecognised-format error; `isMaster` iff the master marker is present and the media marker is not; the media sequence is `MediaSequence(content)` and the URLs are the line scan's result |
| Parser.FirstTagWithDigit | internal/parser/m3u8_parser.go:27 | the leftmost position at or after `i` where the tag is followed by a digit, and no match before it; None iff there is no match at all |
| Parser.MediaSequence | internal/parser/m3u8_parser.go:62-70 | the value always lies in `[0, MaxInt]`; a document without the tag gives 0 |
| Parser.MediaSequenceWithoutMatch | internal/parser/m3u8_parser.go:62-70 | a document where the tag is never followed by a digit gives 0, even when the tag is present |
| Parser.MediaSequenceOfFirstTag | internal/parser/m3u8_parser.go:62-70 | when the text before the tag does not contain the tag and the tag is followed by the maximal digit run `d`, the media sequence is the value of `d` when it fits in `int`, else 0 |
| Parser.MediaSequenceRoundTrip | internal/parser/m3u8_parser.go:62-70 | a sequence number written in decimal after the tag, behind any text that does not contain the tag, is read back unchanged |
| Parser.NoMatchBeforeTag | internal/parser/m3u8_parser.go:27 | no match of the pattern starts inside text that does not contain the tag, whatever follows it |
| Parser.FirstTagAt | internal/parser/m3u8_parser.go:27 | after text that does not contain the tag, the tag followed by a digit is the leftmost match |
| Parser.Lines | internal/parser/m3u8_parser.go:75-77 | no contract of its own: the reference definition of `bufio.ScanLines` (pieces between newlines, no empty piece after a final newline, a trailing carriage return dropped), specified by `LinesFreeOfNewline` |
| Parser.LinesFreeOfNewline | internal/parser/m3u8_parser.go:75-77 | no scanned line holds a newline |
| Parser.LineURL | internal/parser/m3u8_parser.go:78-89 | no contract of its own: what one scanned line contributes, specified by `LineContribution` |
| Parser.ScanURLs | internal/parser/m3u8_parser.go:77-90 | no contract of its own: the reference definition of the loop, specified by `ExtractURLsFromContent` and the `ScanURLs*` lemmas |
| Parser.LineContribution | internal/parser/m3u8_parser.go:78-89 | a line contributes a URL iff, trimmed, it is non-empty, does not start with `#` and parses; it contributes the resolution with inherited query |
| Parser.ExtractURLsFromContent | internal/parser/m3u8_parser.go:73-97 | the scanner loop returns exactly `ScanURLs` of the scanner's lines |
| Parser.ScanURLsStep | internal/parser/m3u8_parser.go:77-90 | one more line extends the result by that line's contribution only |
| Parser.ScanURLsAppend | internal/parser/m3u8_parser.go:77-90 | the URLs of two blocks of lines are the first block's URLs followed by the second's (document order) |
| Parser.ScanURLsSkipsFailingLine | internal/parser/m3u8_parser.go:83-87 | a line that contributes nothing is skipped without changing what its neighbours contribute |
| Parser.ScanURLsFromLines | internal/parser/m3u8_parser.go:77-90 | every URL returned is the contribution of some line |
| Parser.ScanURLsCount | internal/parser/m3u8_parser.go:77-90 | the number of URLs is the number of lines that contribute one |
| Parser.ParseRelativeURL | internal/parser/m3u8_parser.go:100-114 | succeeds iff the line parses; the result is the string form of the resolved reference with inherited query |
| Parser.QueryInheritance | internal/parser/m3u8_parser.go:106-111 | a reference with its own query keeps it; a reference without one, absolute or relative, ends up with the base's query |
| Parser.RelativePathInheritsQuery | internal/parser/m3u8_parser.go:100-111 | a line that is a bare path resolves to the base's scheme and host, the path resolved against the base's path, and the base's query |
| Parser.ExtractSegmentID | internal/parser/m3u8_parser.go:117-130 | fails iff the URL does not parse or its path's last element is `""`, `.` or `/`; a success is never empty and is the segment identity generated from that last element without its extension |
| Parser.ExtractSegmentNumber | internal/parser/m3u8_parser.go:133-143 | a digit suffix of the name that is maximal; empty iff the name is empty or does not end in a digit |
| Parser.GenerateSegmentID | internal/parser/m3u8_parser.go:146-153 | never the empty string |
| Parser.SegmentNumberOfDigitEnding | internal/parser/m3u8_parser.go:133-142 | a name ending in a digit is not blank, so its number is its trailing digit run |
| Parser.SegmentIDIsDigitRun | internal/parser/m3u8_parser.go:146-150 | a name ending in a maximal digit run that fits in `int` is identified by that run verbatim, leading zeros included |
| Parser.SegmentIDFallback | internal/parser/m3u8_parser.go:146-152 | a name that does not end in a digit, or whose digit run overflows `int`, is identified by `"{mediaSeq}_{index}"` |
| Parser.BlankNameFallsBack | internal/parser/m3u8_parser.go:134-136 | an empty or all-white-space name always takes the fallback |
| Parser.IdentityKindsDisjoint | internal/parser/m3u8_parser.go:146-152 | an identity is all digits iff it is not the fallback, so the two kinds never collide |
| Downloader.ProcessSegmentURL | internal/downloader/downloader.go:139-154 | an invalid URL iff `ExtractSegmentID` fails; a kept ID is the derived one; the invalid-name outcome never occurs |
| Downloader.CheckerNeverInvalidName | internal/downloader/downloader.go:147-151 | at no position of any batch does the check report an invalid name |
| Downloader.Filter | internal/downloader/downloader.go:117-130 | no contract of its own: the reference definition of the loop (new URLs, ledger, counters), specified by `FilterNewSegments` and the `Filter*` lemmas |
| Downloader.Picked | internal/downloader/downloader.go:123-128 | no contract of its own: the positions the loop dispatches, tied to `Filter` by `FilterSubsequence` |
| Downloader.FilterSubsequence | internal/downloader/downloader.go:117-130 | the dispatched URLs are the input URLs at strictly increasing positions (an order-preserving subsequence) |
| Downloader.FilterPicksFresh | internal/downloader/downloader.go:123-129 | every dispatched URL has a valid ID that was not marked before the call and is marked after it |
| Downloader.MarkedOnlyFromBatch | internal/downloader/downloader.go:123-129 | an ID marked after the loop was marked before it or is the valid ID of some URL of the batch |
| Downloader.FilterPicksAllFresh | internal/downloader/downloader.go:123-129 | the converse of `FilterPicksFresh`: the first position carrying a valid ID not marked before the call is dispatched |
| Downloader.FilterReturnsAllFresh | internal/downloader/downloader.go:117-130 | the URL at such a position is among the new URLs |
| Downloader.FilterDistinctIds | internal/downloader/downloader.go:123-129 | no two dispatched URLs share a segment ID, even within one batch |
| Downloader.FilterLedgerGrows | internal/downloader/downloader.go:129 | every key of the ledger stays, every changed value becomes `true`, and marked IDs stay marked |
| Downloader.FilterMarksAll | internal/downloader/downloader.go:117-130 | after the loop, every valid ID of the batch is marked |
| Downloader.FilterNothingNew | internal/downloader/downloader.go:117-130 | a batch whose valid IDs are all marked dispatches nothing and leaves the ledger unchanged |
| Downloader.FilterIdempotent | internal/downloader/downloader.go:117-130 | filtering the same batch a second time dispatches nothing and changes nothing |
| Downloader.FilterCounts | internal/downloader/downloader.go:117-151 | new + invalid URL + invalid name + already downloaded = number of URLs; invalid names stay 0 when the check never reports one |
| Downloader.Select | internal/downloader/downloader.go:83-92 | an empty master is an error; a non-empty master redirects to its first URL; a media playlist goes on with its URLs and media sequence |
| Downloader.HLSDownloader.constructor | internal/downloader/downloader.go:29-43 | 8 concurrent downloads, a 5 s interval, 3 attempts, a 1 s base delay, an empty ledger |
| Downloader.HLSDownloader.FilterNewSegments | internal/downloader/downloader.go:107-136 | the new URLs, the new ledger and the counters are those of `Filter` from the old ledger; an empty input returns nothing and leaves the ledger unchanged |
| Downloader.HLSDownloader.ProcessPlaylist | internal/downloader/downloader.go:72-104 | a parse error ends the poll and leaves the ledger unchanged, as do an empty master and a redirect to the first entry; a media playlist updates the ledger as `Filter` does, reports nothing new iff no URL is new, and otherwise downloads exactly the new URLs: the outcome is a success iff every task succeeds and is otherwise a failure whose error is the outcome of the task it names |
| Storage.Sanitize | internal/storage/file_manager.go:135-141 | same length; a safe rune is kept and any other rune becomes `_`; every resulting character is safe |
| Storage.DeriveOutputDir | internal/storage/file_manager.go:122-144 | succeeds iff the URL parses, forwarding the parse error otherwise; every result ends with `_hls_segments` |
| Storage.HostFallback | internal/storage/file_manager.go:128-132 | when the last path element is `""`, `.` or `/`, the stem is the host with every `.` turned into `_` and no other character changed |
| Storage.FilenameStem | internal/storage/file_manager.go:134-143 | otherwise the stem is the extension-less last element, rune for rune, with every unsafe rune turned into `_` and every safe rune kept |
| Storage.StampShape | internal/storage/file_manager.go:75-76 | a well-formed clock gives 15 characters: eight digits, `_`, six digits |
| Storage.Stamp | internal/storage/file_manager.go:75-76 | no contract of its own: the `20060102_150405` layout, specified by `StampShape` |
| Storage.UniqueName | internal/storage/file_manager.go:75-76 | no contract of its own: the `%s_%05d_%s` format, specified by `UniqueNameShape`, `UniqueNameInjective` and `UniqueNamesDistinct` |
| Storage.TsBaseName | internal/storage/file_manager.go:70-73 | always ends in `.ts`; `.ts` is appended only when missing |
| Storage.GenerateFilename | internal/storage/file_manager.go:64-79 | succeeds iff the URL parses; the result is `path.Join(tempDir, stamp_index_base)` |
| Storage.UniqueNameShape | internal/storage/file_manager.go:75-76 | the name reads back field by field: the stamp at the front, `_`, at least five digits denoting the index, `_`, then the `.ts` base name to the end |
| Storage.UniqueNameInjective | internal/storage/file_manager.go:75-76 | among stamps of one length, the name determines the index and the base name |
| Storage.UniqueNamesDistinct | internal/storage/file_manager.go:75-76 | names made at well-formed clock readings agree only when index and base name agree |
| Storage.UniqueNamePlain | internal/storage/file_manager.go:70-78 | with a slash-free last element the unique name is a single plain path element |
| Storage.FilenameBase | internal/storage/file_manager.go:78 | `path.Base` of the generated file name gives back the unique name, for a last element other than `/` |
| Storage.FilenamesDistinct | internal/storage/file_manager.go:38 | two tasks of a batch with different indices write different files |
| Storage.SingleAttempt | internal/storage/file_manager.go:96-119 | succeeds iff status 200 arrives and either the file exists or creating and copying both work; an existing file is never changed; a success leaves a file behind |
| Storage.DownloadFileWithRetry | internal/storage/file_manager.go:82-93 | the loop's outcome, attempt count, pauses and file left behind are exactly `Retry` from attempt 0 |
| Storage.Retry | internal/storage/file_manager.go:82-93 | no contract of its own: the reference definition of the loop from attempt `i`, specified by `DownloadFileWithRetry`, `RetryUnfold` and the `Retry*From` lemmas |
| Storage.RetryUnfold | internal/storage/file_manager.go:83-91 | one attempt stops the loop on success; otherwise the rest of the loop follows, after a pause unless this was the last attempt |
| Storage.RetryOkFrom | internal/storage/file_manager.go:83-86 | the loop from attempt `k` succeeds iff some attempt in `[k, maxRetries)` succeeds |
| Storage.RetryFirstSuccessFrom | internal/storage/file_manager.go:83-86 | on success, the last attempt made is the first successful one and lies within the bound |
| Storage.RetryFailureCountFrom | internal/storage/file_manager.go:83-92 | on failure, every attempt up to the bound was made |
| Storage.RetryFileFrom | internal/storage/file_manager.go:83-86 | the file left behind is the state after the attempts made |
| Storage.RetryDelaysFrom | internal/storage/file_manager.go:87-90 | one pause after every attempt made but the last, attempt `i` followed by `i + 1` seconds |
| Storage.RetryOutcome | internal/storage/file_manager.go:82-93 | succeeds iff one of the first `maxRetries` attempts does and stops at the first success; the pauses are `1, 2, ...`, and all-failing gives `[1 .. maxRetries-1]`; `maxRetries <= 0` makes no attempt and fails |
| Storage.PartialFileAccepted | internal/storage/file_manager.go:107-118 | a copy that fails leaves a partial file, and the next attempt with status 200 reports success without rewriting it |
| Storage.TaskOutcome | internal/storage/file_manager.go:38-47 | a task's error carries the task's own index |
| Storage.Outcomes | internal/storage/file_manager.go:30-51 | one outcome per URL, the one for position `i` being the task run with index `i` |
| Storage.CollectExactlyFailures | internal/storage/file_manager.go:53-58 | the channel ends up empty iff every task succeeded, and it holds only errors that tasks reported |
| Storage.Collect | internal/storage/file_manager.go:53-58 | no more errors than outcomes; its contents are stated by `CollectExactlyFailures` |
| Storage.FirstCollected | internal/storage/file_manager.go:56-60 | the drain returns nothing iff every outcome is a success, otherwise one of the reported failures |
| Storage.FirstFailure | internal/storage/file_manager.go:53-60 | the first collected error is the outcome of the task whose index it carries |
| Storage.RunTask | internal/storage/file_manager.go:34-50 | a worker's result is `TaskOutcome` for its URL and index |
| Storage.ConcurrentDownload | internal/storage/file_manager.go:25-61 | returns no error iff every task succeeds; an error it returns is the outcome of the task it names |
| Urls.ResolveReference | internal/parser/m3u8_parser.go:106 | a reference with a query keeps it; a reference without a query that has a path or a forced `?` ends up without one, before the downloader's inheritance step |
| Urls.ResolvePath | internal/parser/m3u8_parser.go:106 | no contract of its own: path merging and dot-segment removal (sections 5.2.3 and 5.2.4 of RFC 3986), specified by `ResolvePathRooted`, `ResolvePathWithoutDots` and `ResolveSibling` |
| Urls.ResolvePathRooted | internal/parser/m3u8_parser.go:106 | the merged path is empty iff both paths are, and starts with `/` otherwise |
| Urls.ResolvePathWithoutDots | internal/parser/m3u8_parser.go:106 | a rooted merged path with no `.` or `..` element is the resolved path unchanged |
| Urls.ResolveSibling | internal/parser/m3u8_parser.go:106 | a relative `ref` against `/a/name` resolves to `/a/ref` |
| Urls.ResolveRelativeReference | internal/parser/m3u8_parser.go:106 | a bare relative path resolved against a hierarchical base keeps the base's scheme and authority, takes the resolved path, and has no query of its own |
| Urls.Parse | internal/parser/m3u8_parser.go:101 | no contract of its own: `url.Parse` with its control-character check, scheme, query, authority, path and fragment steps, specified by `ParseRejectsControl`, `ParseRelativePath` and, on concrete URLs, by `Scenarios.CdnParseEscaped` |
| Urls.ParseRejectsControl | internal/parser/m3u8_parser.go:101 | a control character before any `#` fails the parse with the control-character error |
| Urls.GetSchemeWithoutColon | internal/parser/m3u8_parser.go:101 | text with no `:` has no scheme |
| Urls.ParseRelativePath | internal/parser/m3u8_parser.go:101 | a relative path with no `:`, `?`, `#`, `%` or control character parses to a URL holding only that path |
| Urls.Unescape | internal/parser/m3u8_parser.go:101 | no contract of its own: `%XX` unescaping of the path, with the bytes read as UTF-8, specified by the lemmas below |
| Urls.UnescapeEscapeAll | internal/parser/m3u8_parser.go:101 | unescaping the percent-encoded UTF-8 bytes of any string gives that string back |
| Urls.UnescapeWithoutEscapes | internal/parser/m3u8_parser.go:101 | a string without `%` is its own unescaping |
| Urls.UnescapeAfterLiterals | internal/parser/m3u8_parser.go:101 | text without `%` in front of the rest stays in front of the rest's unescaping, and the rest's failure is the whole's |
| Urls.ToString | internal/parser/m3u8_parser.go:113 | no contract of its own: `(*URL).String`, specified by `ToStringOfHostAndPath` and `Scenarios.CdnRoundTrip` |
| Urls.ToStringOfHostAndPath | internal/parser/m3u8_parser.go:113 | a URL with a scheme, a host, a rooted raw path and perhaps a query is written `scheme://host`, then that path, then `?` and the query when it is not empty |
| Paths.Base | internal/parser/m3u8_parser.go:123 | never empty; either `/` or free of slashes; `.` for the empty path |
| Paths.BaseOfSlashes | internal/parser/m3u8_parser.go:123 | a non-empty path of slashes only gives `/` |
| Paths.BaseOfElement | internal/parser/m3u8_parser.go:123 | any other non-empty path gives its last element: the slash-free slice that ends where only slashes follow and starts at the beginning or after a slash |
| Paths.Ext | internal/parser/m3u8_parser.go:128 | empty iff no `.` of the argument is followed by slash-free text only; otherwise a suffix of the argument that starts with `.` and holds no slash and no other `.`, so it starts at the last such `.` |
| Paths.ExtOfStem | internal/storage/file_manager.go:134 | a stem followed by one dotted extension has that extension, and stripping it gives the stem back |
| Paths.BaseOfName | internal/parser/m3u8_parser.go:123 | `path.Base` of a path ending in a plain name is that name |
| Paths.CleanEndsWithName | internal/storage/file_manager.go:78 | cleaning a path that ends in a plain name keeps that name as its last element |
| Paths.BaseOfJoin | internal/storage/file_manager.go:78 | the last element of `path.Join(dir, name)` is `name` for a plain name |
| Paths.Clean | internal/storage/file_manager.go:78 | no contract of its own: `path.Clean` over the stack of kept elements, specified by `CleanEndsWithName` and `CleanRooted` |
| Paths.CleanRooted | internal/storage/file_manager.go:78 | the cleaned path starts with `/` iff the path did |
| Paths.Join | internal/storage/file_manager.go:78 | no contract of its own: `path.Join` of two elements, specified by `BaseOfJoin` |
| Text.TrimSpace | internal/parser/m3u8_parser.go:78 | empty iff every character is white space; otherwise neither end is white space |
| Text.TrimSpaceSlice | internal/parser/m3u8_parser.go:78 | the trimmed line is the slice of the line from its first character that is not white space, with only white space after it |
| Text.TrailingDigits | internal/parser/m3u8_parser.go:138-142 | the maximal run of digits at the end of the string |
| Text.Atoi | internal/parser/m3u8_parser.go:65 | on a digit string: succeeds iff the string is non-empty and its value fits in 64-bit `int`, and then returns that value |
| Text.ZeroPad | internal/storage/file_manager.go:75 | at least `width` digits denoting `n` |
| Text.ReplaceChar | internal/storage/file_manager.go:130 | same length; every `from` becomes `to` and every other character is kept |
| Text.SplitPiecesFree | internal/parser/m3u8_parser.go:75-77 | no piece of `strings.Split` holds the separator |
| Text.SplitThenJoin | internal/parser/m3u8_parser.go:75-77 | joining the pieces with the separator gives the string back |
| Scenarios.CdnParseEscaped | internal/storage/file_manager.go:123 | `url.Parse("https://cdn.example.com" + path)` for a printable rooted path with well-formed escapes gives scheme `https`, that host, the decoded path and the raw path |
| Scenarios.CdnParse | internal/storage/file_manager.go:123 | a path without `%` is both the path and the raw path |
| Scenarios.CdnRoundTrip | internal/parser/m3u8_parser.go:113 | `String` of such a parsed URL is the URL text again, escapes included |
| Scenarios.CdnParseWithQuery | internal/parser/m3u8_parser.go:101 | `https://cdn.example.com` + a plain path + `?` + a query parses to the host, the path and the raw query |
| Scenarios.QueryInherited | internal/parser/m3u8_parser.go:100-114 | the line `seg1.ts` against `https://cdn.example.com/live/index.m3u8?tok=1` becomes `https://cdn.example.com/live/seg1.ts?tok=1` |
| Scenarios.AccentedPath | internal/parser/m3u8_parser.go:118 | `/caf%C3%A9` decodes to `/café`: two escaped bytes, one character |
| Scenarios.AccentedDirectory | internal/storage/file_manager.go:122-144 | `https://cdn.example.com/caf%C3%A9` gives `caf__hls_segments` |
| Scenarios.HeaderThenMediaSequence | internal/parser/m3u8_parser.go:62-70 | a playlist that opens with `#EXTM3U` and then carries the tag has that media sequence |
| Scenarios.LiveDirectory | internal/storage/file_manager.go:128-143 | `https://cdn.example.com/live/` gives `live_hls_segments` |
| Scenarios.HostDirectory | internal/storage/file_manager.go:128-132 | `https://cdn.example.com/` gives `cdn_example_com_hls_segments` |
| Scenarios.ShowDirectory | internal/storage/file_manager.go:134-143 | `https://cdn.example.com/live/show!.m3u8` gives `show__hls_segments` |
| Scenarios.LeadingZerosKept | internal/parser/m3u8_parser.go:146-150 | `https://cdn.example.com/live/segment00042.ts` gets the ID `00042` |
| Scenarios.ChunkFallsBack | internal/parser/m3u8_parser.go:152 | `https://cdn.example.com/live/chunk.ts` at media sequence 7 and index 3 gets the ID `7_3` |
| Scenarios.RootPathBaseName | internal/storage/file_manager.go:70-73 | a path of slashes only gives the `.ts` base name `/.ts` |

## Left out

- Network I/O is left out: `utils.HTTPGet`, `http.Get`, `os.Create`, `io.Copy` and `os.Stat`.
  - The playlist text is a parameter of `ProcessPlaylist`.
  - What attempt `j` of task `i` meets is an `Attempt` value (transport failure, or a status with create and copy outcomes) supplied by a function parameter.
  - A destination file is `Absent`, `Partial` or `Complete`.
  - A failing `os.Stat` is taken to mean the file is absent.
- `ConcurrentDownload`'s goroutines, semaphore and WaitGroup are left out.
  - The workers run one after another in index order, and each task sees the disk as it was before the batch. Tasks never share a file (`Storage.FilenamesDistinct`).
  - The error returned is the first one in index order. It is the one a single scheduling gives; the program may return any reported error.
  - `maxConcurrent` is not modelled: with 0 the program blocks forever, and a negative value makes `make` panic.
- Time is left out.
  - `time.Now()` is a `Clock` parameter per task.
  - `time.Sleep` is replaced by the list of pauses the retry loop returns.
  - The polling interval is only a constant of the class.
- The driver code is left out: `Start`, `loopDownloadHLS` with its infinite loop and `os.MkdirAll`, `deriveOutputDir`, `concurrentDownload`, and `cmd/hls_downloader/main.go`.
- `HLSDownloader.ProcessPlaylist` does not follow a master playlist's redirect by fetching and processing the target, as `processM3U8` does recursively. It returns the target as its outcome instead, because the recursion needs the network and need not terminate.
- Logging (`log.Printf`, `fmt.Printf`) is left out. `FilterNewSegments` returns its counters instead of logging them.
- `bufio.Scanner`'s error for a line longer than 64 KiB is not modelled, so `ExtractURLsFromContent` never fails.
- Text is a sequence of code points, not of bytes.
  - Urls.Unescape: reads the escaped bytes as UTF-8, one U+FFFD for each byte that does not start a valid sequence. Go keeps those raw bytes in the path. `strings.Map` in `DeriveOutputDir` reads an invalid byte the same way, as U+FFFD, which then becomes `_`, so Storage.DeriveOutputDir and Storage.FilenameStem agree with Go. The `.ts` base name of `generateFilename` would hold the raw byte where the model has U+FFFD.
  - Unescaped non-ASCII characters in the input are code points, as Go's `range` over a valid UTF-8 string sees them.
- `url.Parse` omits some checks:
  - percent-unescaping and validation of host names;
  - validation of user information;
  - the re-escaping `(*URL).String` applies to paths whose escapes are not canonical.
  - The path is kept in its escaped form as given, which is what `EscapedPath` returns for every canonically escaped path.
- Urls.ResolveReference: its contract states only the query rules the downloader relies on. The path resolution is modelled by the function body and is not specified further.
- Parser.Parse: it uses the specification function `ScanURLs` of the line scan rather than calling the method `ExtractURLsFromContent`, which is proved to compute the same list.
- Downloader.HLSDownloader.FilterNewSegments: the counters the Go loop keeps are returned rather than logged, and the `nil` slice Go returns for an empty input is the empty sequence.

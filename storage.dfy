/** Output naming, the single-file download attempt, the retry loop and the
    outcome aggregation of the batch download (internal/storage/file_manager.go). */
module Storage {
  import opened Text
  import Urls
  import Paths

  // ---- DeriveOutputDir ------------------------------------------------------

  const OutputSuffix: string := "_hls_segments"

  /** The characters the directory name keeps: `[A-Za-z0-9_-]`. */
  predicate IsSafe(c: char) {
    ('a' <= c <= 'z') || ('A' <= c <= 'Z') || ('0' <= c <= '9') || c == '-' || c == '_'
  }

  /** The `strings.Map` step: every character outside the safe set becomes `_`. */
  function Sanitize(s: string): (r: string)
    ensures |r| == |s|
    ensures forall i :: 0 <= i < |s| ==> r[i] == if IsSafe(s[i]) then s[i] else '_'
    ensures forall i :: 0 <= i < |r| ==> IsSafe(r[i])
  {
    if s == [] then [] else [if IsSafe(s[0]) then s[0] else '_'] + Sanitize(s[1..])
  }

  /** `DeriveOutputDir`: the host (dots turned into underscores) when the path
      has no usable last element, otherwise the sanitised extension-less last
      element; either way followed by `_hls_segments`. */
  function DeriveOutputDir(hlsURL: string): (r: Result<string, Urls.UrlError>)
    ensures r.Ok? <==> Urls.Parse(hlsURL).Ok?
    ensures r.Err? ==> r.error == Urls.Parse(hlsURL).error
    ensures r.Ok? ==> HasSuffix(r.value, OutputSuffix)
  {
    match Urls.Parse(hlsURL)
    case Err(e) => Err(e)
    case Ok(u) =>
      var filename := Paths.Base(u.path);
      if Paths.IsInvalidBaseName(filename) then
        Ok(ReplaceChar(u.host, '.', '_') + OutputSuffix)
      else
        Ok(Sanitize(TrimSuffix(filename, Paths.Ext(filename))) + OutputSuffix)
  }

  /** The name in front of the suffix. */
  function DirStem(dir: string): string
    requires HasSuffix(dir, OutputSuffix)
  {
    dir[..|dir| - |OutputSuffix|]
  }

  /** The host fallback is taken exactly for a path whose last element is
      empty, `.` or `/`; it changes every `.` of the host (and nothing else,
      so a port's `:` survives) into `_`. */
  lemma HostFallback(hlsURL: string)
    requires Urls.Parse(hlsURL).Ok?
    requires Paths.IsInvalidBaseName(Paths.Base(Urls.Parse(hlsURL).value.path))
    ensures var host := Urls.Parse(hlsURL).value.host;
            var stem := DirStem(DeriveOutputDir(hlsURL).value);
            |stem| == |host|
            && forall i :: 0 <= i < |host| ==> stem[i] == if host[i] == '.' then '_' else host[i]
  {
    var r := DeriveOutputDir(hlsURL).value;
    var host := Urls.Parse(hlsURL).value.host;
    assert DirStem(r) == ReplaceChar(host, '.', '_');
  }

  /** Otherwise the stem is the last element with its extension stripped,
      rune for rune, with every unsafe rune turned into `_`: the length is
      kept and every character of the stem is safe. */
  lemma FilenameStem(hlsURL: string)
    requires Urls.Parse(hlsURL).Ok?
    requires !Paths.IsInvalidBaseName(Paths.Base(Urls.Parse(hlsURL).value.path))
    ensures var f := Paths.Base(Urls.Parse(hlsURL).value.path);
            var name := TrimSuffix(f, Paths.Ext(f));
            var stem := DirStem(DeriveOutputDir(hlsURL).value);
            f == name + Paths.Ext(f)
            && |stem| == |name|
            && (forall i :: 0 <= i < |stem| ==> IsSafe(stem[i]))
            && (forall i :: 0 <= i < |name| ==> IsSafe(name[i]) ==> stem[i] == name[i])
  {
    var f := Paths.Base(Urls.Parse(hlsURL).value.path);
    var name := TrimSuffix(f, Paths.Ext(f));
    var r := DeriveOutputDir(hlsURL).value;
    assert DirStem(r) == Sanitize(name);
  }

  // ---- generateFilename -------------------------------------------------------

  /** The wall-clock reading that `time.Now()` supplies. */
  datatype Clock = Clock(year: nat, month: nat, day: nat, hour: nat, minute: nat, second: nat)

  predicate ValidClock(c: Clock) {
    c.year < 10000 && 1 <= c.month <= 12 && 1 <= c.day <= 31
    && c.hour < 24 && c.minute < 60 && c.second < 60
  }

  /** Go's layout `20060102_150405`. */
  function Stamp(c: Clock): string {
    ZeroPad(c.year, 4) + ZeroPad(c.month, 2) + ZeroPad(c.day, 2) + "_"
    + ZeroPad(c.hour, 2) + ZeroPad(c.minute, 2) + ZeroPad(c.second, 2)
  }

  /** A well-formed reading gives fifteen characters: eight digits, `_`, six digits. */
  lemma StampShape(c: Clock)
    requires ValidClock(c)
    ensures var r := Stamp(c);
            |r| == 15 && r[8] == '_'
            && forall i :: 0 <= i < 15 && i != 8 ==> IsDigit(r[i])
  {
    assert Pow10(2) == 100 && Pow10(4) == 10000;
    NatToStringLength(c.year, 4);
    NatToStringLength(c.month, 2);
    NatToStringLength(c.day, 2);
    NatToStringLength(c.hour, 2);
    NatToStringLength(c.minute, 2);
    NatToStringLength(c.second, 2);
  }

  /** The last path element with `.ts` appended unless it already ends so. */
  function TsBaseName(b: string): (r: string)
    ensures HasSuffix(r, ".ts")
    ensures HasSuffix(b, ".ts") ==> r == b
    ensures !HasSuffix(b, ".ts") ==> r == b + ".ts"
  {
    if HasSuffix(b, ".ts") then b else b + ".ts"
  }

  /** `%s_%05d_%s` of the stamp, the index and the base name. */
  function UniqueName(stamp: string, index: nat, base: string): string {
    stamp + "_" + ZeroPad(index, 5) + "_" + base
  }

  /** `generateFilename`: the unique name joined under `tempDir`. */
  function GenerateFilename(tsURL: string, tempDir: string, index: nat, clock: Clock)
    : (r: Result<string, Urls.UrlError>)
    ensures r.Ok? <==> Urls.Parse(tsURL).Ok?
    ensures r.Ok? ==> r.value == Paths.Join(tempDir,
              UniqueName(Stamp(clock), index, TsBaseName(Paths.Base(Urls.Parse(tsURL).value.path))))
  {
    match Urls.Parse(tsURL)
    case Err(e) => Err(e)
    case Ok(u) => Ok(Paths.Join(tempDir, UniqueName(Stamp(clock), index, TsBaseName(Paths.Base(u.path)))))
  }

  /** The unique name reads back field by field: the stamp, an underscore,
      at least five digits that denote the index, an underscore and the
      `.ts` base name. */
  lemma UniqueNameShape(clock: Clock, index: nat, b: string)
    ensures var n := UniqueName(Stamp(clock), index, TsBaseName(b));
            var k := |Stamp(clock)|;
            var pad := ZeroPad(index, 5);
            && HasSuffix(n, ".ts")
            && |pad| >= 5 && AllDigits(pad) && DecimalValue(pad) == index
            && k + |pad| + 2 <= |n| && n[k] == '_' && n[k + 1 + |pad|] == '_'
            && n[..k] == Stamp(clock) && n[k + 1..k + 1 + |pad|] == pad && n[k + |pad| + 2..] == TsBaseName(b)
  {
    var t := TsBaseName(b);
    var n := UniqueName(Stamp(clock), index, t);
    assert t[|t| - 3..] == ".ts";
    FieldsOf(Stamp(clock), ZeroPad(index, 5), t);
    assert n[|n| - 3..] == t[|t| - 3..];
  }

  /** The fields of `s + "_" + p + "_" + t`, by position. */
  lemma FieldsOf(s: string, p: string, t: string)
    ensures var n := s + "_" + p + "_" + t;
            var k := |s|;
            && k + |p| + 2 <= |n| && n[k] == '_' && n[k + 1 + |p|] == '_'
            && n[..k] == s && n[k + 1..k + 1 + |p|] == p && n[k + |p| + 2..] == t
            && n[|n| - |t|..] == t
  {
  }

  lemma SamePrefixLength(a: string, x: string, b: string, y: string)
    requires |a| == |b| && a + x == b + y
    ensures x == y
  {
    assert x == (a + x)[|a|..];
    assert y == (b + y)[|b|..];
  }

  /** A unique name determines its index and base name among stamps of one
      length. */
  lemma UniqueNameInjective(s1: string, i1: nat, b1: string, s2: string, i2: nat, b2: string)
    requires |s1| == |s2|
    ensures UniqueName(s1, i1, b1) == UniqueName(s2, i2, b2) ==> i1 == i2 && b1 == b2
  {
    var p1 := ZeroPad(i1, 5);
    var p2 := ZeroPad(i2, 5);
    if UniqueName(s1, i1, b1) == UniqueName(s2, i2, b2) {
      assert UniqueName(s1, i1, b1) == (s1 + "_") + (p1 + ['_'] + b1);
      assert UniqueName(s2, i2, b2) == (s2 + "_") + (p2 + ['_'] + b2);
      SamePrefixLength(s1 + "_", p1 + ['_'] + b1, s2 + "_", p2 + ['_'] + b2);
      DigitsBeforeUnderscore(p1, b1, p2, b2);
    }
  }

  /** Two tasks of one batch never share a file name: unique names made at
      well-formed clock readings with different indices differ. */
  lemma UniqueNamesDistinct(c1: Clock, i1: nat, b1: string, c2: Clock, i2: nat, b2: string)
    requires ValidClock(c1) && ValidClock(c2)
    ensures UniqueName(Stamp(c1), i1, b1) == UniqueName(Stamp(c2), i2, b2) ==> i1 == i2 && b1 == b2
  {
    StampShape(c1);
    StampShape(c2);
    UniqueNameInjective(Stamp(c1), i1, b1, Stamp(c2), i2, b2);
  }

  /** With a well-formed clock and a slash-free last element, the unique name
      is a single plain path element. */
  lemma UniqueNamePlain(c: Clock, index: nat, b: string)
    requires ValidClock(c) && NoChar(b, '/')
    ensures Paths.IsPlainName(UniqueName(Stamp(c), index, TsBaseName(b)))
  {
    StampShape(c);
    var stamp, pad, t := Stamp(c), ZeroPad(index, 5), TsBaseName(b);
    assert NoChar(stamp, '/');
    assert NoChar(pad, '/');
    assert NoChar(t, '/');
    NoCharAppend(stamp, "_", '/');
    NoCharAppend(stamp + "_", pad, '/');
    NoCharAppend(stamp + "_" + pad, "_", '/');
    NoCharAppend(stamp + "_" + pad + "_", t, '/');
  }

  /** The file a task writes is named by its unique name: `path.Base` of the
      joined path gives it back (what the worker prints on completion). This
      needs a last element other than `/`; for a path made of slashes only
      the `.ts` base name is `/.ts` and the joined path gains a directory. */
  lemma FilenameBase(tsURL: string, tempDir: string, index: nat, clock: Clock)
    requires ValidClock(clock)
    requires Urls.Parse(tsURL).Ok? && Paths.Base(Urls.Parse(tsURL).value.path) != "/"
    ensures Paths.Base(GenerateFilename(tsURL, tempDir, index, clock).value)
            == UniqueName(Stamp(clock), index, TsBaseName(Paths.Base(Urls.Parse(tsURL).value.path)))
  {
    var b := Paths.Base(Urls.Parse(tsURL).value.path);
    UniqueNamePlain(clock, index, b);
    Paths.BaseOfJoin(tempDir, UniqueName(Stamp(clock), index, TsBaseName(b)));
  }

  /** Two tasks of one batch with different indices write different files. */
  lemma FilenamesDistinct(url1: string, url2: string, tempDir: string, i1: nat, i2: nat, c1: Clock, c2: Clock)
    requires ValidClock(c1) && ValidClock(c2) && i1 != i2
    requires Urls.Parse(url1).Ok? && Paths.Base(Urls.Parse(url1).value.path) != "/"
    requires Urls.Parse(url2).Ok? && Paths.Base(Urls.Parse(url2).value.path) != "/"
    ensures GenerateFilename(url1, tempDir, i1, c1).value != GenerateFilename(url2, tempDir, i2, c2).value
  {
    FilenameBase(url1, tempDir, i1, c1);
    FilenameBase(url2, tempDir, i2, c2);
    UniqueNamesDistinct(c1, i1, TsBaseName(Paths.Base(Urls.Parse(url1).value.path)),
                        c2, i2, TsBaseName(Paths.Base(Urls.Parse(url2).value.path)));
  }

  // ---- downloadSingleFile --------------------------------------------------------

  /** The destination file as `os.Stat` and `os.Create` see it. */
  datatype FileState = Absent | Partial | Complete

  /** What the network and the file system do during one attempt: the GET
      fails outright, or a response arrives with a status code and the
      creation and the copy of the file succeed or fail. */
  datatype Attempt =
    | TransportFailure
    | Reply(status: int, createFails: bool, copyFails: bool)

  const StatusOK: int := 200

  datatype Step = Step(ok: bool, file: FileState)

  /** `downloadSingleFile`: GET, demand status 200, accept an existing file
      without writing, otherwise create the file and copy the body into it. */
  function SingleAttempt(a: Attempt, file: FileState): (r: Step)
    ensures r.ok <==> a.Reply? && a.status == StatusOK
                      && (file != Absent || (!a.createFails && !a.copyFails))
    ensures file != Absent ==> r.file == file
    ensures r.file != file ==> file == Absent && a.Reply? && a.status == StatusOK && !a.createFails
    ensures r.ok ==> r.file != Absent
    ensures r.ok && file == Absent ==> r.file == Complete
  {
    if a.TransportFailure? then Step(false, file)
    else if a.status != StatusOK then Step(false, file)
    else if file != Absent then Step(true, file)
    else if a.createFails then Step(false, file)
    else if a.copyFails then Step(false, Partial)
    else Step(true, Complete)
  }

  // ---- downloadFileWithRetry -----------------------------------------------------

  /** How a retry loop ends: success, the number of attempts made, the pauses
      (in seconds) taken between them, and the file left behind. */
  datatype RetryResult = RetryResult(ok: bool, attempts: nat, delays: seq<nat>, file: FileState)

  /** The loop from attempt `i` on, when `env(j)` is what attempt `j` meets. */
  function Retry(env: nat -> Attempt, file: FileState, maxRetries: int, i: nat): RetryResult
    decreases maxRetries - i
  {
    if i >= maxRetries then RetryResult(false, i, [], file)
    else
      var s := SingleAttempt(env(i), file);
      if s.ok then RetryResult(true, i + 1, [], s.file)
      else
        var rest := Retry(env, s.file, maxRetries, i + 1);
        rest.(delays := (if i < maxRetries - 1 then [i + 1] else []) + rest.delays)
  }

  /** `downloadFileWithRetry`: at most `maxRetries` attempts, a pause of
      `i + 1` seconds after failed attempt `i` unless it was the last one,
      and an early return on the first success. */
  method DownloadFileWithRetry(env: nat -> Attempt, file: FileState, maxRetries: int)
    returns (ok: bool, attempts: nat, delays: seq<nat>, final: FileState)
    ensures RetryResult(ok, attempts, delays, final) == Retry(env, file, maxRetries, 0)
  {
    attempts := 0;
    delays := [];
    final := file;
    ghost var whole := Retry(env, file, maxRetries, 0);
    var i: nat := 0;
    while i < maxRetries
      invariant attempts == i
      invariant whole.ok == Retry(env, final, maxRetries, i).ok
      invariant whole.attempts == Retry(env, final, maxRetries, i).attempts
      invariant whole.file == Retry(env, final, maxRetries, i).file
      invariant whole.delays == delays + Retry(env, final, maxRetries, i).delays
      decreases maxRetries - i
    {
      var s := SingleAttempt(env(i), final);
      RetryUnfold(env, final, maxRetries, i);
      attempts := i + 1;
      final := s.file;
      if s.ok {
        ok := true;
        assert delays + [] == delays;
        return;
      }
      ghost var rest := Retry(env, final, maxRetries, i + 1);
      if i < maxRetries - 1 {
        assert delays + ([i + 1] + rest.delays) == (delays + [i + 1]) + rest.delays;
        delays := delays + [i + 1];
      } else {
        assert [] + rest.delays == rest.delays;
      }
      i := i + 1;
    }
    ok := false;
    assert delays + [] == delays;
  }

  /** The file as attempt `i` finds it, every earlier attempt having failed. */
  function StateBefore(env: nat -> Attempt, file: FileState, i: nat): FileState {
    if i == 0 then file else SingleAttempt(env(i - 1), StateBefore(env, file, i - 1)).file
  }

  /** Attempt `i`, reached after failures only, succeeds. */
  predicate Succeeds(env: nat -> Attempt, file: FileState, i: nat) {
    SingleAttempt(env(i), StateBefore(env, file, i)).ok
  }

  /** One attempt of the loop: it stops on success, otherwise the
      rest of the loop follows, after a pause unless this was the last attempt. */
  lemma RetryUnfold(env: nat -> Attempt, file: FileState, maxRetries: int, i: nat)
    requires i < maxRetries
    ensures var s := SingleAttempt(env(i), file);
            var rest := Retry(env, s.file, maxRetries, i + 1);
            Retry(env, file, maxRetries, i)
            == if s.ok then RetryResult(true, i + 1, [], s.file)
               else rest.(delays := (if i < maxRetries - 1 then [i + 1] else []) + rest.delays)
  {
  }

  /** One failed attempt `k` hands the loop on to attempt `k + 1` with the
      file it left behind; only the pauses change. */
  lemma RetryStep(env: nat -> Attempt, file: FileState, maxRetries: int, k: nat)
    requires k < maxRetries && !Succeeds(env, file, k)
    ensures var r := Retry(env, StateBefore(env, file, k), maxRetries, k);
            var rest := Retry(env, StateBefore(env, file, k + 1), maxRetries, k + 1);
            r == rest.(delays := (if k < maxRetries - 1 then [k + 1] else []) + rest.delays)
  {
  }

  /** The loop from attempt `k` on succeeds iff some attempt in
      `[k, maxRetries)` succeeds, and the first success is the last attempt made. */
  lemma RetryAttemptsFrom(env: nat -> Attempt, file: FileState, maxRetries: int, k: nat)
    ensures var r := Retry(env, StateBefore(env, file, k), maxRetries, k);
            && (r.ok <==> exists i :: k <= i < maxRetries && Succeeds(env, file, i))
            && (r.ok ==> k < r.attempts <= maxRetries && Succeeds(env, file, r.attempts - 1)
                         && forall j :: k <= j < r.attempts - 1 ==> !Succeeds(env, file, j))
            && (!r.ok ==> r.attempts == Max(maxRetries, k))
            && r.file == StateBefore(env, file, r.attempts)
  {
    RetryOkFrom(env, file, maxRetries, k);
    RetryFirstSuccessFrom(env, file, maxRetries, k);
    RetryFailureCountFrom(env, file, maxRetries, k);
    RetryFileFrom(env, file, maxRetries, k);
  }

  lemma {:induction false} RetryOkFrom(env: nat -> Attempt, file: FileState, maxRetries: int, k: nat)
    ensures Retry(env, StateBefore(env, file, k), maxRetries, k).ok
            <==> exists i :: k <= i < maxRetries && Succeeds(env, file, i)
    decreases maxRetries - k
  {
    if k < maxRetries && !Succeeds(env, file, k) {
      RetryStep(env, file, maxRetries, k);
      RetryOkFrom(env, file, maxRetries, k + 1);
      if exists i :: k <= i < maxRetries && Succeeds(env, file, i) {
        var i :| k <= i < maxRetries && Succeeds(env, file, i);
        assert k + 1 <= i;
      }
    }
  }

  lemma {:induction false} RetryFirstSuccessFrom(env: nat -> Attempt, file: FileState, maxRetries: int, k: nat)
    ensures var r := Retry(env, StateBefore(env, file, k), maxRetries, k);
            r.ok ==> k < r.attempts <= maxRetries && Succeeds(env, file, r.attempts - 1)
                     && forall j :: k <= j < r.attempts - 1 ==> !Succeeds(env, file, j)
    decreases maxRetries - k
  {
    if k < maxRetries && !Succeeds(env, file, k) {
      RetryStep(env, file, maxRetries, k);
      RetryFirstSuccessFrom(env, file, maxRetries, k + 1);
    }
  }

  lemma {:induction false} RetryFailureCountFrom(env: nat -> Attempt, file: FileState, maxRetries: int, k: nat)
    ensures var r := Retry(env, StateBefore(env, file, k), maxRetries, k);
            !r.ok ==> r.attempts == Max(maxRetries, k)
    decreases maxRetries - k
  {
    if k < maxRetries && !Succeeds(env, file, k) {
      RetryStep(env, file, maxRetries, k);
      RetryFailureCountFrom(env, file, maxRetries, k + 1);
    }
  }

  lemma {:induction false} RetryFileFrom(env: nat -> Attempt, file: FileState, maxRetries: int, k: nat)
    ensures var r := Retry(env, StateBefore(env, file, k), maxRetries, k);
            r.file == StateBefore(env, file, r.attempts)
    decreases maxRetries - k
  {
    if k < maxRetries && !Succeeds(env, file, k) {
      RetryStep(env, file, maxRetries, k);
      RetryFileFrom(env, file, maxRetries, k + 1);
    }
  }

  /** The pauses of the loop from attempt `k` on are `k + 1, k + 2, ...`,
      one after each attempt made except the last. */
  lemma {:induction false} RetryDelaysFrom(env: nat -> Attempt, file: FileState, maxRetries: int, k: nat)
    ensures var r := Retry(env, StateBefore(env, file, k), maxRetries, k);
            && |r.delays| == Max(r.attempts - 1 - k, 0)
            && forall d :: 0 <= d < |r.delays| ==> r.delays[d] == k + d + 1
    decreases maxRetries - k
  {
    if k < maxRetries && !Succeeds(env, file, k) {
      RetryStep(env, file, maxRetries, k);
      RetryDelaysFrom(env, file, maxRetries, k + 1);
      RetryFirstSuccessFrom(env, file, maxRetries, k + 1);
      RetryFailureCountFrom(env, file, maxRetries, k + 1);
    }
  }

  /** `downloadFileWithRetry` as a whole: it succeeds iff one of the first
      `maxRetries` attempts does, stops at the first success, sleeps `1, 2,
      ...` seconds between attempts and never after the last one; with
      `maxRetries <= 0` it makes no attempt and fails. */
  lemma RetryOutcome(env: nat -> Attempt, file: FileState, maxRetries: int)
    ensures var r := Retry(env, file, maxRetries, 0);
            && (r.ok <==> exists i :: 0 <= i < maxRetries && Succeeds(env, file, i))
            && (r.ok ==> 0 < r.attempts <= maxRetries && Succeeds(env, file, r.attempts - 1)
                         && forall j :: 0 <= j < r.attempts - 1 ==> !Succeeds(env, file, j))
            && (!r.ok ==> r.attempts == Max(maxRetries, 0))
            && |r.delays| == Max(r.attempts - 1, 0)
            && (forall d :: 0 <= d < |r.delays| ==> r.delays[d] == d + 1)
    ensures maxRetries <= 0 ==> Retry(env, file, maxRetries, 0) == RetryResult(false, 0, [], file)
  {
    RetryAttemptsFrom(env, file, maxRetries, 0);
    RetryDelaysFrom(env, file, maxRetries, 0);
  }

  /** An interrupted copy leaves a partial file behind, and the next attempt
      that gets status 200 finds it with `os.Stat` and reports success
      without rewriting it. */
  lemma PartialFileAccepted(env: nat -> Attempt, maxRetries: int)
    requires maxRetries >= 2
    requires env(0) == Reply(StatusOK, false, true)
    requires env(1).Reply? && env(1).status == StatusOK
    ensures Retry(env, Absent, maxRetries, 0) == RetryResult(true, 2, [1], Partial)
  {
    assert SingleAttempt(env(0), Absent) == Step(false, Partial);
    assert SingleAttempt(env(1), Partial) == Step(true, Partial);
  }

  // ---- ConcurrentDownload ---------------------------------------------------------

  /** Why one task of the batch failed. */
  datatype TaskError = FilenameFailed(index: nat, cause: Urls.UrlError) | DownloadFailed(index: nat)

  /** Everything outside the batch that its tasks depend on: the target
      directory, the retry bound, the clock reading task `i` takes, what
      attempt `j` of task `i` meets, and the files already on disk. */
  datatype Batch = Batch(
    tempDir: string,
    maxRetries: int,
    clock: nat -> Clock,
    env: nat -> nat -> Attempt,
    disk: string -> FileState)

  /** What the task for `urls[i]` reports: nothing on success. */
  function TaskOutcome(b: Batch, url: string, i: nat): (r: Option<TaskError>)
    ensures r.Some? ==> r.value.index == i
  {
    match GenerateFilename(url, b.tempDir, i, b.clock(i))
    case Err(e) => Some(FilenameFailed(i, e))
    case Ok(name) =>
      if Retry(b.env(i), b.disk(name), b.maxRetries, 0).ok then None else Some(DownloadFailed(i))
  }

  /** What every task of the batch reports, by index. */
  function Outcomes(b: Batch, urls: seq<string>): (r: seq<Option<TaskError>>)
    ensures |r| == |urls|
    ensures forall i :: 0 <= i < |urls| ==> r[i] == TaskOutcome(b, urls[i], i)
  {
    seq(|urls|, i requires 0 <= i < |urls| => TaskOutcome(b, urls[i], i))
  }

  /** The errors among `outcomes`, in order: what the channel holds once
      every worker is done. */
  function Collect(outcomes: seq<Option<TaskError>>): (r: seq<TaskError>)
    ensures |r| <= |outcomes|
  {
    if outcomes == [] then []
    else
      var n := |outcomes| - 1;
      Collect(outcomes[..n]) + (match outcomes[n] case Some(e) => [e] case None => [])
  }

  /** No error is collected iff every outcome is a success, and every
      collected error is one of the outcomes. */
  lemma {:induction false} CollectExactlyFailures(outcomes: seq<Option<TaskError>>)
    ensures Collect(outcomes) == [] <==> forall i :: 0 <= i < |outcomes| ==> outcomes[i].None?
    ensures forall e :: e in Collect(outcomes) ==> Some(e) in outcomes
  {
    if outcomes != [] {
      var n := |outcomes| - 1;
      var init := outcomes[..n];
      CollectExactlyFailures(init);
      assert forall i :: 0 <= i < n ==> outcomes[i] == init[i];
      forall e | e in Collect(outcomes) ensures Some(e) in outcomes {
        if e in Collect(init) {
          var k :| 0 <= k < n && init[k] == Some(e);
          assert outcomes[k] == Some(e);
        }
      }
    }
  }

  /** What the drain of the channel returns: nothing iff every outcome is a
      success, otherwise one of the failures. */
  lemma FirstCollected(outcomes: seq<Option<TaskError>>)
    ensures var c := Collect(outcomes);
            (c == [] <==> forall i :: 0 <= i < |outcomes| ==> outcomes[i].None?)
            && (c != [] ==> exists i :: 0 <= i < |outcomes| && outcomes[i] == Some(c[0]))
  {
    CollectExactlyFailures(outcomes);
    var c := Collect(outcomes);
    if c != [] {
      assert c[0] in c;
    }
  }

  /** The body of one worker: name the file, then download it with retries. */
  method RunTask(b: Batch, url: string, i: nat) returns (outcome: Option<TaskError>)
    ensures outcome == TaskOutcome(b, url, i)
  {
    var filename := GenerateFilename(url, b.tempDir, i, b.clock(i));
    if filename.Err? {
      return Some(FilenameFailed(i, filename.error));
    }
    var ok, _, _, _ := DownloadFileWithRetry(b.env(i), b.disk(filename.value), b.maxRetries);
    if !ok {
      return Some(DownloadFailed(i));
    }
    return None;
  }

  lemma CollectStep(outcomes: seq<Option<TaskError>>, i: nat)
    requires i < |outcomes|
    ensures Collect(outcomes[..i + 1])
            == Collect(outcomes[..i]) + (match outcomes[i] case Some(e) => [e] case None => [])
  {
    assert outcomes[..i + 1][..i] == outcomes[..i];
  }

  /** The first error collected from a batch is the outcome of the task it names. */
  lemma FirstFailure(b: Batch, urls: seq<string>)
    ensures var c := Collect(Outcomes(b, urls));
            && (c == [] <==> forall i :: 0 <= i < |urls| ==> TaskOutcome(b, urls[i], i).None?)
            && (c != [] ==> c[0].index < |urls| && TaskOutcome(b, urls[c[0].index], c[0].index) == Some(c[0]))
  {
    var outcomes := Outcomes(b, urls);
    FirstCollected(outcomes);
    var c := Collect(outcomes);
    if c != [] {
      var k :| 0 <= k < |outcomes| && outcomes[k] == Some(c[0]);
      assert TaskOutcome(b, urls[k], k) == Some(c[0]);
    }
  }

  /** `ConcurrentDownload` with the workers run one after another in index
      order: each task names its file and downloads it with retries, sending
      its error to the channel; the drain returns the first error received. */
  method ConcurrentDownload(b: Batch, urls: seq<string>) returns (err: Option<TaskError>)
    ensures err.None? <==> forall i :: 0 <= i < |urls| ==> TaskOutcome(b, urls[i], i).None?
    ensures err.Some? ==> err.value.index < |urls|
                          && TaskOutcome(b, urls[err.value.index], err.value.index) == err
  {
    ghost var outcomes := Outcomes(b, urls);
    var errChan: seq<TaskError> := [];
    for i := 0 to |urls|
      invariant errChan == Collect(outcomes[..i])
    {
      CollectStep(outcomes, i);
      var outcome := RunTask(b, urls[i], i);
      if outcome.Some? {
        errChan := errChan + [outcome.value];
      }
    }
    assert outcomes[..|urls|] == outcomes;
    err := if errChan == [] then None else Some(errChan[0]);
    FirstFailure(b, urls);
  }
}

/** Java runtime discovery of `AuxiliaryTools`. The file system and the child processes are
    oracles gathered in a `Host`. */
module JavaDiscovery {
  import opened Wrappers
  import opened Text

  /** The "Java not found" sentinel returned for a folder without `bin\java.exe`. */
  const NotFound: string := "未找到Java"
  const VersionMarker: string := "version \""
  const Quote: string := "\""
  const SixtyFourBit: string := "64-Bit"
  /** The suffix removed from each path printed by `where`. */
  const BinJavaExe: string := "\\bin\\java.exe"
  const VersionErrorMessage: string := "获取Java版本号时发生错误"
  const UnparsableMessage: string := "无法解析Java版本号"
  const ListErrorMessage: string := "发生错误"
  /** The volumes scanned, in scan order. */
  const DriveLetters: string := seq(26, i requires 0 <= i < 26 => ('A' as int + i) as char)

  /** The exceptions of this component: whatever a child process throws, and the
      `InvalidOperationException`s that wrap it. */
  datatype Exception =
    | ProcessFailure
    | InvalidOperation(message: string, inner: Option<Exception>)

  /** Outcome of running `java.exe -version`: it could not be started or read, or it ran and
      wrote `stderr`. */
  datatype ProcessResult = StartFailed | Exited(stderr: string)

  /** The machine the discovery runs on. `versionRun(path)` and `bitnessRun(path)` are the
      two launches of `path -version` made by `GetJavaVersion` and `GetJavaBitness`;
      `whereLines(letter)` is the standard output of `where /R letter:\ java.exe`, split into
      lines, or `None` when that process fails. */
  datatype Host = Host(
    fileExists: string -> bool,
    versionRun: string -> ProcessResult,
    bitnessRun: string -> ProcessResult,
    whereLines: char -> Option<seq<string>>)

  /** One discovered runtime. */
  datatype JavaInfo = JavaInfo(version: string, bitness: string, path: string)

  function Wrap(message: string, cause: Exception): Exception
  {
    InvalidOperation(message, Some(cause))
  }

  predicate IsSeparator(c: char)
  {
    c == '\\' || c == '/'
  }

  /** `Path.Combine(folder, "bin", "java.exe")` with Windows separators. */
  function ExecutablePath(folder: string): (path: string)
    ensures folder <= path
    ensures path[|folder|..] == BinJavaExe[1..] || path[|folder|..] == BinJavaExe
    ensures path[|folder|..] == BinJavaExe[1..] <==> (folder == [] || IsSeparator(folder[|folder| - 1]))
  {
    if folder == [] || IsSeparator(folder[|folder| - 1]) then folder + BinJavaExe[1..]
    else folder + BinJavaExe
  }

  // ---------------------------------------------------------------- text extraction

  /** `output[from..]` starts with `v` and a closing quote, and `v` holds no quote. */
  ghost predicate QuotedAt(output: string, from: int, v: string)
  {
    0 <= from && from + |v| < |output| && output[from..from + |v|] == v &&
    output[from + |v|] == '"' && '"' !in v
  }

  /** The version text: between the end of the first `version "` and the next quote. */
  function ExtractVersion(output: string): (r: Option<string>)
    ensures r.Some? ==> Contains(output, VersionMarker) && |VersionMarker| + |r.value| < |output|
  {
    var start := IndexOf(output, VersionMarker, 0);
    if start == -1 then
      None
    else
      var from := start + |VersionMarker|;
      var end := IndexOf(output, Quote, from);
      if end == -1 then None else Some(output[from..end])
  }

  /** A version is only ever read from the quoted text right after the first marker. */
  lemma ExtractedIsQuoted(output: string)
    ensures ExtractVersion(output).Some? ==>
      exists i :: FirstAt(output, VersionMarker, i) && QuotedAt(output, i + |VersionMarker|, ExtractVersion(output).value)
  {
    var start := IndexOf(output, VersionMarker, 0);
    if start != -1 {
      var from := start + |VersionMarker|;
      var end := IndexOf(output, Quote, from);
      assert FirstAt(output, VersionMarker, start);
      if end != -1 {
        var v := output[from..end];
        CharOccursAt(output, '"', end);
        forall k | 0 <= k < |v|
          ensures v[k] != '"'
        {
          CharOccursAt(output, '"', from + k);
        }
        assert QuotedAt(output, from, v);
      }
    }
  }

  /** No version is read exactly when the marker is missing or no quote follows it. */
  lemma NothingExtracted(output: string)
    ensures ExtractVersion(output).None? <==>
      forall i :: FirstAt(output, VersionMarker, i) ==> '"' !in output[i + |VersionMarker|..]
  {
    var start := IndexOf(output, VersionMarker, 0);
    if start != -1 {
      var from := start + |VersionMarker|;
      assert FirstAt(output, VersionMarker, start);
      forall i | FirstAt(output, VersionMarker, i)
        ensures i == start
      {
        FirstAtUnique(output, VersionMarker, i, start);
      }
      CharAbsentAfter(output, '"', from);
    }
  }

  /** The next quote after `from` closes a quote-free `v`. */
  lemma QuoteFoundAt(output: string, from: nat, v: string)
    requires QuotedAt(output, from, v)
    ensures IndexOf(output, Quote, from) == from + |v|
  {
    CharOccursAt(output, '"', from + |v|);
    forall j | from <= j < from + |v|
      ensures !OccursAt(output, Quote, j)
    {
      assert output[j] == output[from..from + |v|][j - from];
      CharOccursAt(output, '"', j);
    }
    IndexOfIs(output, Quote, from, from + |v|);
  }

  /** Whatever surrounds them, the first marker followed by a quoted `v` yields `v`. */
  lemma VersionRoundTrip(output: string, start: int, v: string)
    requires FirstAt(output, VersionMarker, start)
    requires QuotedAt(output, start + |VersionMarker|, v)
    ensures ExtractVersion(output) == Some(v)
  {
    IndexOfIs(output, VersionMarker, 0, start);
    QuoteFoundAt(output, start + |VersionMarker|, v);
  }

  /** Writing a quote-free version after the first marker and reading it back gives it
      unchanged. */
  lemma MarkedVersionRoundTrip(pre: string, v: string, post: string)
    requires FirstAt(pre + VersionMarker, VersionMarker, |pre|)
    requires '"' !in v
    ensures ExtractVersion(pre + VersionMarker + v + Quote + post) == Some(v)
  {
    var output := pre + VersionMarker + v + Quote + post;
    MarkerFirstIn(pre, v + Quote + post);
    assert output == pre + VersionMarker + (v + Quote + post);
    var from := |pre| + |VersionMarker|;
    assert output[from..from + |v|] == v;
    assert output[from + |v|] == '"';
    assert QuotedAt(output, from, v);
    VersionRoundTrip(output, |pre|, v);
  }

  /** The first marker of `pre + VersionMarker` stays the first whatever follows it. */
  lemma MarkerFirstIn(pre: string, rest: string)
    requires FirstAt(pre + VersionMarker, VersionMarker, |pre|)
    ensures FirstAt(pre + VersionMarker + rest, VersionMarker, |pre|)
  {
    var t := pre + VersionMarker;
    OccursInPrefix(t, rest, VersionMarker, |pre|);
    forall j | 0 <= j < |pre|
      ensures !OccursAt(t + rest, VersionMarker, j)
    {
      OccursInPrefix(t, rest, VersionMarker, j);
    }
  }

  /** The sample output quoted in `GetJavaVersion`'s comment. */
  lemma VersionOfJava21()
    ensures ExtractVersion("java version \"21.0.4\"") == Some("21.0.4")
  {
    var pre := "java ";
    var t := pre + VersionMarker;
    forall j | 0 <= j < |pre|
      ensures !OccursAt(t, VersionMarker, j)
    {
      if OccursAt(t, VersionMarker, j) {
        OccursAtChar(t, VersionMarker, j, 0);
        OccursAtChar(t, VersionMarker, j, 1);
        assert false;
      }
    }
    assert t[|pre|..|pre| + |VersionMarker|] == VersionMarker;
    MarkedVersionRoundTrip(pre, "21.0.4", "");
    Java21Output();
  }

  /** The sample output spelled with the marker and the closing quote. */
  lemma Java21Output()
    ensures "java " + VersionMarker + "21.0.4" + Quote + "" == "java version \"21.0.4\""
  {
  }

  // ---------------------------------------------------------------- one folder

  /** `GetJavaVersion(folder)`: the sentinel when `bin\java.exe` is missing, else the version
      its `-version` output reports. */
  function GetJavaVersion(folder: string, host: Host): (r: Result<string, Exception>)
    ensures !host.fileExists(ExecutablePath(folder)) ==> r == Success(NotFound)
    ensures host.fileExists(ExecutablePath(folder)) ==>
      (r.Success? <==>
        host.versionRun(ExecutablePath(folder)).Exited? &&
        ExtractVersion(host.versionRun(ExecutablePath(folder)).stderr).Some?)
    ensures host.fileExists(ExecutablePath(folder)) && r.Success? ==>
      r.value == ExtractVersion(host.versionRun(ExecutablePath(folder)).stderr).value
    ensures r.Failure? ==>
      r.error.InvalidOperation? && r.error.message == VersionErrorMessage && r.error.inner.Some?
  {
    var path := ExecutablePath(folder);
    if !host.fileExists(path) then
      Success(NotFound)
    else
      match host.versionRun(path)
      case StartFailed => Failure(Wrap(VersionErrorMessage, ProcessFailure))
      case Exited(output) =>
        match ExtractVersion(output)
        case Some(v) => Success(v)
        case None => Failure(Wrap(VersionErrorMessage, InvalidOperation(UnparsableMessage, None)))
  }

  /** `GetJavaBitness(folder)`: the sentinel when `bin\java.exe` is missing, else "64" or "32". */
  function GetJavaBitness(folder: string, host: Host): (r: Result<string, Exception>)
    ensures !host.fileExists(ExecutablePath(folder)) ==> r == Success(NotFound)
    ensures host.fileExists(ExecutablePath(folder)) ==>
      (r.Success? <==> host.bitnessRun(ExecutablePath(folder)).Exited?)
    ensures host.fileExists(ExecutablePath(folder)) && r.Success? ==>
      (r.value == "64" || r.value == "32") &&
      (r.value == "64" <==> Contains(host.bitnessRun(ExecutablePath(folder)).stderr, SixtyFourBit))
    ensures r.Failure? ==> r.error == Wrap(VersionErrorMessage, ProcessFailure)
  {
    var path := ExecutablePath(folder);
    if !host.fileExists(path) then
      Success(NotFound)
    else
      match host.bitnessRun(path)
      case StartFailed => Failure(Wrap(VersionErrorMessage, ProcessFailure))
      case Exited(output) => Success(if Contains(output, SixtyFourBit) then "64" else "32")
  }

  /** Text without the marker fails version extraction with the parse error wrapped by
      `GetJavaVersion`, while the bitness of the same text is read without failing. */
  lemma UnparsableOutput(folder: string, host: Host)
    requires host.fileExists(ExecutablePath(folder))
    requires host.versionRun(ExecutablePath(folder)).Exited?
    requires host.bitnessRun(ExecutablePath(folder)) == host.versionRun(ExecutablePath(folder))
    requires !Contains(host.versionRun(ExecutablePath(folder)).stderr, VersionMarker)
    ensures GetJavaVersion(folder, host) ==
      Failure(Wrap(VersionErrorMessage, InvalidOperation(UnparsableMessage, None)))
    ensures GetJavaBitness(folder, host) == Success("32") || GetJavaBitness(folder, host) == Success("64")
  {
    var output := host.versionRun(ExecutablePath(folder)).stderr;
    assert ExtractVersion(output) == None;
  }

  // ---------------------------------------------------------------- discovery

  /** The body of the line loop: strip `\bin\java.exe`, read version then bitness, and
      drop the candidate when the version is the sentinel. */
  function Candidate(line: string, host: Host): (r: Result<Option<JavaInfo>, Exception>)
    ensures r.Success? ==>
      (r.value.None? <==> GetJavaVersion(Remove(line, BinJavaExe), host) == Success(NotFound))
    ensures r.Success? && r.value.Some? ==>
      var info := r.value.value;
      info.path == Remove(line, BinJavaExe) && info.version != NotFound &&
      GetJavaVersion(info.path, host) == Success(info.version) &&
      GetJavaBitness(info.path, host) == Success(info.bitness)
    ensures !host.fileExists(ExecutablePath(Remove(line, BinJavaExe))) ==> r == Success(None)
  {
    var folder := Remove(line, BinJavaExe);
    var version :- GetJavaVersion(folder, host);
    var bitness :- GetJavaBitness(folder, host);
    if version == NotFound then Success(None)
    else Success(Some(JavaInfo(version, bitness, folder)))
  }

  /** What a part of the scan yields: its records in order, or the exception that ended it. */
  type Found = Result<seq<JavaInfo>, Exception>

  /** Two consecutive parts of a scan: records concatenate, and the earlier exception wins. */
  function Then(first: Found, second: Found): Found
  {
    if first.Failure? then first
    else if second.Failure? then second
    else Success(first.value + second.value)
  }

  /** The records of consecutive parts of a scan, in order; the first exception ends the scan. */
  function Gather(parts: seq<Found>): Found
    decreases |parts|
  {
    if parts == [] then Success([])
    else Then(Gather(parts[..|parts| - 1]), parts[|parts| - 1])
  }

  /** The records of one `where` line: the folder's record, when the folder holds a Java. */
  function Listed(candidate: Result<Option<JavaInfo>, Exception>): Found
  {
    match candidate
    case Failure(e) => Failure(e)
    case Success(None) => Success([])
    case Success(Some(info)) => Success([info])
  }

  /** What each `where` line yields, in line order. */
  function LineParts(lines: seq<string>, host: Host): (parts: seq<Found>)
    ensures |parts| == |lines|
    decreases |lines|
  {
    if lines == [] then []
    else LineParts(lines[..|lines| - 1], host) + [Listed(Candidate(lines[|lines| - 1], host))]
  }

  /** The records of a drive's `where` lines, in line order; the first exception aborts. */
  function ScanLines(lines: seq<string>, host: Host): (r: Found)
    ensures r.Success? ==> |r.value| <= |lines|
    ensures r.Success? ==> forall k :: 0 <= k < |r.value| ==> r.value[k].version != NotFound
  {
    LinesBounded(lines, host);
    Gather(LineParts(lines, host))
  }

  /** One iteration of the drive loop, its exceptions wrapped by the loop's `catch`. */
  function ScanDrive(letter: char, host: Host): (r: Found)
    ensures r.Failure? ==>
      r.error.InvalidOperation? && r.error.message == ListErrorMessage && r.error.inner.Some?
    ensures r.Success? ==>
      host.whereLines(letter).Some? && ScanLines(host.whereLines(letter).value, host) == r
  {
    match host.whereLines(letter)
    case None => Failure(Wrap(ListErrorMessage, ProcessFailure))
    case Some(lines) =>
      match ScanLines(lines, host)
      case Failure(e) => Failure(Wrap(ListErrorMessage, e))
      case Success(found) => Success(found)
  }

  /** What each drive yields, in drive order. */
  function DriveParts(letters: seq<char>, host: Host): (parts: seq<Found>)
    ensures |parts| == |letters|
    decreases |letters|
  {
    if letters == [] then []
    else DriveParts(letters[..|letters| - 1], host) + [ScanDrive(letters[|letters| - 1], host)]
  }

  /** The number of lines `where` printed on the given drives (none for a failed drive). */
  function LineCount(letters: seq<char>, host: Host): nat
    decreases |letters|
  {
    if letters == [] then 0
    else
      var last := host.whereLines(letters[|letters| - 1]);
      LineCount(letters[..|letters| - 1], host) + if last.Some? then |last.value| else 0
  }

  /** The records of the given drives, drive by drive; the first exception aborts the scan. */
  function ScanDrives(letters: seq<char>, host: Host): (r: Found)
    ensures r.Success? ==> |r.value| <= LineCount(letters, host)
    ensures r.Success? ==> forall k :: 0 <= k < |r.value| ==> r.value[k].version != NotFound
    ensures r.Failure? ==>
      r.error.InvalidOperation? && r.error.message == ListErrorMessage && r.error.inner.Some?
  {
    DrivesBounded(letters, host);
    Gather(DriveParts(letters, host))
  }

  /** The line loop of one drive's `where` output: the records of `lines` appended to
      `javaList`, or the first exception a line throws. */
  method ScanOutput(lines: seq<string>, host: Host, javaList: seq<JavaInfo>) returns (r: Found)
    ensures r == Then(Success(javaList), ScanLines(lines, host))
  {
    var found := javaList;
    var i := 0;
    assert lines[..i] == [];
    assert javaList + [] == javaList;
    while i < |lines|
      invariant 0 <= i <= |lines|
      invariant ScanLines(lines[..i], host).Success?
      invariant found == javaList + ScanLines(lines[..i], host).value
    {
      ScanLinesStep(lines, i, host);
      LoopBodyIsCandidate(lines[i], host);
      var line := Remove(lines[i], BinJavaExe);
      var javaVersion := GetJavaVersion(line, host);
      if javaVersion.Failure? {
        r := Failure(javaVersion.error);
        LineAbortsDrive(lines, i, host);
        return;
      }
      var javaBitness := GetJavaBitness(line, host);
      if javaBitness.Failure? {
        r := Failure(javaBitness.error);
        LineAbortsDrive(lines, i, host);
        return;
      }
      assert ScanLines(lines[..i + 1], host).Success?;
      i := i + 1;
      if javaVersion.value == NotFound {
        assert found == javaList + ScanLines(lines[..i], host).value;
        continue;
      }
      found := found + [JavaInfo(javaVersion.value, javaBitness.value, line)];
      assert found == javaList + ScanLines(lines[..i], host).value;
    }
    assert lines[..i] == lines;
    r := Success(found);
  }

  /** `GetJavaList`: every runtime on drives A to Z. */
  method GetJavaList(host: Host) returns (r: Found)
    ensures r == ScanDrives(DriveLetters, host)
  {
    var javaList: seq<JavaInfo> := [];
    var k := 0;
    assert DriveLetters[..k] == [];
    while k < |DriveLetters|
      invariant 0 <= k <= |DriveLetters|
      invariant ScanDrives(DriveLetters[..k], host) == Success(javaList)
    {
      DriveLoopBody(DriveLetters, k, javaList, host);
      var letter := DriveLetters[k];
      var output := host.whereLines(letter);
      if output.None? {
        r := Failure(Wrap(ListErrorMessage, ProcessFailure));
        return;
      }
      var scanned := ScanOutput(output.value, host, javaList);
      if scanned.Failure? {
        r := Failure(Wrap(ListErrorMessage, scanned.error));
        return;
      }
      javaList := scanned.value;
      k := k + 1;
    }
    assert DriveLetters[..k] == DriveLetters;
    r := Success(javaList);
  }

  // ---------------------------------------------------------------- properties of the scan

  /** One more part: its records go after those of the parts before it. */
  lemma GatherSnoc(parts: seq<Found>, last: Found)
    ensures Gather(parts + [last]) == Then(Gather(parts), last)
  {
    assert (parts + [last])[..|parts|] == parts;
  }

  /** Parts are gathered in order: the records of `a + b` are those of `a`, then those of `b`,
      and an exception in `a` ends the scan before `b`. */
  lemma {:induction false} GatherAppend(a: seq<Found>, b: seq<Found>)
    ensures Gather(a + b) == Then(Gather(a), Gather(b))
    decreases |b|
  {
    if b == [] {
      assert a + b == a;
      if Gather(a).Success? {
        assert Gather(a).value + [] == Gather(a).value;
      }
    } else {
      var init := b[..|b| - 1];
      assert (a + b)[..|a + b| - 1] == a + init;
      GatherAppend(a, init);
      var x, y, z := Gather(a), Gather(init), b[|b| - 1];
      if x.Success? && y.Success? && z.Success? {
        assert x.value + (y.value + z.value) == x.value + y.value + z.value;
      }
    }
  }

  /** The scan succeeds exactly when every part does. */
  lemma {:induction false} GatherSucceeds(parts: seq<Found>)
    ensures Gather(parts).Success? <==> forall i :: 0 <= i < |parts| ==> parts[i].Success?
    decreases |parts|
  {
    if parts != [] {
      var init := parts[..|parts| - 1];
      GatherSucceeds(init);
      assert forall i :: 0 <= i < |init| ==> init[i] == parts[i];
    }
  }

  /** A failed scan fails with the exception of its first failing part. */
  lemma {:induction false} GatherFirstFailure(parts: seq<Found>)
    ensures Gather(parts).Failure? ==>
      exists i :: 0 <= i < |parts| && parts[i] == Gather(parts) &&
        forall j :: 0 <= j < i ==> parts[j].Success?
    decreases |parts|
  {
    if parts != [] && Gather(parts).Failure? {
      var n := |parts| - 1;
      var init := parts[..n];
      assert forall j :: 0 <= j < n ==> init[j] == parts[j];
      if Gather(init).Failure? {
        GatherFirstFailure(init);
        var i :| 0 <= i < |init| && init[i] == Gather(init) &&
          forall j :: 0 <= j < i ==> init[j].Success?;
        assert parts[i] == Gather(parts);
      } else {
        GatherSucceeds(init);
        assert parts[n] == Gather(parts);
      }
    }
  }

  /** The parts of `lines[..i + 1]` are those of `lines[..i]` and then line `i`'s. */
  lemma LinePartsStep(lines: seq<string>, i: nat, host: Host)
    requires i < |lines|
    ensures LineParts(lines[..i + 1], host) == LineParts(lines[..i], host) + [Listed(Candidate(lines[i], host))]
  {
    assert lines[..i + 1][..i] == lines[..i];
  }

  /** The parts of `letters[..i + 1]` are those of `letters[..i]` and then drive `i`'s. */
  lemma DrivePartsStep(letters: seq<char>, i: nat, host: Host)
    requires i < |letters|
    ensures DriveParts(letters[..i + 1], host) == DriveParts(letters[..i], host) + [ScanDrive(letters[i], host)]
  {
    assert letters[..i + 1][..i] == letters[..i];
  }

  /** One more line: its record, if any, goes after those of the lines before it. */
  lemma ScanLinesStep(lines: seq<string>, i: nat, host: Host)
    requires i < |lines|
    ensures ScanLines(lines[..i + 1], host) == Then(ScanLines(lines[..i], host), Listed(Candidate(lines[i], host)))
  {
    LinePartsStep(lines, i, host);
    GatherSnoc(LineParts(lines[..i], host), Listed(Candidate(lines[i], host)));
  }

  /** One more drive: its records go after those of the drives before it. */
  lemma ScanDrivesStep(letters: seq<char>, i: nat, host: Host)
    requires i < |letters|
    ensures ScanDrives(letters[..i + 1], host) == Then(ScanDrives(letters[..i], host), ScanDrive(letters[i], host))
  {
    DrivePartsStep(letters, i, host);
    GatherSnoc(DriveParts(letters[..i], host), ScanDrive(letters[i], host));
  }

  /** The parts of `a + b` are those of `a`, then those of `b`. */
  lemma {:induction false} LinePartsAppend(a: seq<string>, b: seq<string>, host: Host)
    ensures LineParts(a + b, host) == LineParts(a, host) + LineParts(b, host)
    decreases |b|
  {
    if b == [] {
      assert a + b == a;
      assert LineParts(a, host) + [] == LineParts(a, host);
    } else {
      var init := b[..|b| - 1];
      assert (a + b)[..|a + b| - 1] == a + init;
      assert (a + b)[|a + b| - 1] == b[|b| - 1];
      LinePartsAppend(a, init, host);
      var x, y, z := LineParts(a, host), LineParts(init, host), [Listed(Candidate(b[|b| - 1], host))];
      assert x + (y + z) == x + y + z;
    }
  }

  /** The parts of `a + b` are those of `a`, then those of `b`. */
  lemma {:induction false} DrivePartsAppend(a: seq<char>, b: seq<char>, host: Host)
    ensures DriveParts(a + b, host) == DriveParts(a, host) + DriveParts(b, host)
    decreases |b|
  {
    if b == [] {
      assert a + b == a;
      assert DriveParts(a, host) + [] == DriveParts(a, host);
    } else {
      var init := b[..|b| - 1];
      assert (a + b)[..|a + b| - 1] == a + init;
      assert (a + b)[|a + b| - 1] == b[|b| - 1];
      DrivePartsAppend(a, init, host);
      var x, y, z := DriveParts(a, host), DriveParts(init, host), [ScanDrive(b[|b| - 1], host)];
      assert x + (y + z) == x + y + z;
    }
  }

  /** Lines are processed in order: the records of `a + b` are those of `a`, then those of `b`,
      and an exception in `a` stops the scan before `b`. */
  lemma ScanLinesAppend(a: seq<string>, b: seq<string>, host: Host)
    ensures ScanLines(a + b, host) == Then(ScanLines(a, host), ScanLines(b, host))
  {
    LinePartsAppend(a, b, host);
    GatherAppend(LineParts(a, host), LineParts(b, host));
  }

  /** Drives are processed in order: the records of `a + b` are those of `a`, then those of
      `b`, and an exception on a drive of `a` stops the scan before `b`. */
  lemma ScanDrivesAppend(a: seq<char>, b: seq<char>, host: Host)
    ensures ScanDrives(a + b, host) == Then(ScanDrives(a, host), ScanDrives(b, host))
  {
    DrivePartsAppend(a, b, host);
    GatherAppend(DriveParts(a, host), DriveParts(b, host));
  }

  /** The line loop's body, read version then bitness, computes `Candidate`. */
  lemma LoopBodyIsCandidate(line: string, host: Host)
    ensures var version := GetJavaVersion(Remove(line, BinJavaExe), host);
      version.Failure? ==> Candidate(line, host) == Failure(version.error)
    ensures var version, bitness := GetJavaVersion(Remove(line, BinJavaExe), host), GetJavaBitness(Remove(line, BinJavaExe), host);
      version.Success? && bitness.Failure? ==> Candidate(line, host) == Failure(bitness.error)
    ensures var version, bitness := GetJavaVersion(Remove(line, BinJavaExe), host), GetJavaBitness(Remove(line, BinJavaExe), host);
      version.Success? && bitness.Success? ==>
        Listed(Candidate(line, host)) ==
          if version.value == NotFound then Success([])
          else Success([JavaInfo(version.value, bitness.value, Remove(line, BinJavaExe))])
  {
  }

  /** A line yields at most one record, and never one with the sentinel version. */
  lemma CandidateListed(line: string, host: Host)
    ensures Listed(Candidate(line, host)).Success? ==> |Listed(Candidate(line, host)).value| <= 1
    ensures Listed(Candidate(line, host)).Success? ==>
      forall k :: 0 <= k < |Listed(Candidate(line, host)).value| ==>
        Listed(Candidate(line, host)).value[k].version != NotFound
  {
  }

  /** Records of two consecutive parts keep a property both parts' records have. */
  lemma ThenKeepsVersions(x: Found, y: Found)
    requires x.Success? ==> forall k :: 0 <= k < |x.value| ==> x.value[k].version != NotFound
    requires y.Success? ==> forall k :: 0 <= k < |y.value| ==> y.value[k].version != NotFound
    ensures Then(x, y).Success? ==>
      forall k :: 0 <= k < |Then(x, y).value| ==> Then(x, y).value[k].version != NotFound
  {
    if x.Success? && y.Success? {
      var v := x.value + y.value;
      forall k | 0 <= k < |v|
        ensures v[k].version != NotFound
      {
        if k >= |x.value| {
          assert v[k] == y.value[k - |x.value|];
        }
      }
    }
  }

  /** A drive that succeeds lists at most one record per line, none with the sentinel version. */
  lemma {:induction false} LinesBounded(lines: seq<string>, host: Host)
    ensures Gather(LineParts(lines, host)).Success? ==>
      |Gather(LineParts(lines, host)).value| <= |lines|
    ensures Gather(LineParts(lines, host)).Success? ==>
      forall k :: 0 <= k < |Gather(LineParts(lines, host)).value| ==>
        Gather(LineParts(lines, host)).value[k].version != NotFound
    decreases |lines|
  {
    if lines != [] {
      var n := |lines| - 1;
      LinesBounded(lines[..n], host);
      LinePartsStep(lines, n, host);
      assert lines[..n + 1] == lines;
      var c := Listed(Candidate(lines[n], host));
      GatherSnoc(LineParts(lines[..n], host), c);
      CandidateListed(lines[n], host);
      ThenKeepsVersions(Gather(LineParts(lines[..n], host)), c);
    }
  }

  /** A discovery that succeeds lists at most one record per printed line, none with the sentinel version. */
  lemma {:induction false} DrivesBounded(letters: seq<char>, host: Host)
    ensures Gather(DriveParts(letters, host)).Success? ==>
      |Gather(DriveParts(letters, host)).value| <= LineCount(letters, host)
    ensures Gather(DriveParts(letters, host)).Success? ==>
      forall k :: 0 <= k < |Gather(DriveParts(letters, host)).value| ==>
        Gather(DriveParts(letters, host)).value[k].version != NotFound
    ensures Gather(DriveParts(letters, host)).Failure? ==>
      var e := Gather(DriveParts(letters, host)).error;
      e.InvalidOperation? && e.message == ListErrorMessage && e.inner.Some?
    decreases |letters|
  {
    if letters != [] {
      var n := |letters| - 1;
      DrivesBounded(letters[..n], host);
      DrivePartsStep(letters, n, host);
      assert letters[..n + 1] == letters;
      var d := ScanDrive(letters[n], host);
      GatherSnoc(DriveParts(letters[..n], host), d);
      ThenKeepsVersions(Gather(DriveParts(letters[..n], host)), d);
    }
  }

  /** The first failing line decides the outcome of the drive. */
  lemma LineAbortsDrive(lines: seq<string>, i: nat, host: Host)
    requires i < |lines| && ScanLines(lines[..i], host).Success?
    requires Candidate(lines[i], host).Failure?
    ensures ScanLines(lines, host) == Failure(Candidate(lines[i], host).error)
  {
    ScanLinesStep(lines, i, host);
    var a, b := lines[..i + 1], lines[i + 1..];
    assert a + b == lines;
    ScanLinesAppend(a, b, host);
  }

  /** The first failing drive decides the outcome of the whole scan. */
  lemma DriveAbortsScan(letters: seq<char>, k: nat, host: Host)
    requires k < |letters| && ScanDrives(letters[..k], host).Success?
    requires ScanDrive(letters[k], host).Failure?
    ensures ScanDrives(letters, host) == ScanDrive(letters[k], host)
  {
    ScanDrivesStep(letters, k, host);
    var a, b := letters[..k + 1], letters[k + 1..];
    assert a + b == letters;
    ScanDrivesAppend(a, b, host);
  }

  /** The drive loop's body: a failed `where` or a line's exception ends the scan, wrapped;
      otherwise the drive's records follow those of the drives before it. */
  lemma DriveLoopBody(letters: seq<char>, k: nat, javaList: seq<JavaInfo>, host: Host)
    requires k < |letters| && ScanDrives(letters[..k], host) == Success(javaList)
    ensures host.whereLines(letters[k]).None? ==>
      ScanDrives(letters, host) == Failure(Wrap(ListErrorMessage, ProcessFailure))
    ensures host.whereLines(letters[k]).Some? ==>
      var found := Then(Success(javaList), ScanLines(host.whereLines(letters[k]).value, host));
      (found.Failure? ==> ScanDrives(letters, host) == Failure(Wrap(ListErrorMessage, found.error))) &&
      (found.Success? ==> ScanDrives(letters[..k + 1], host) == found)
  {
    ScanDrivesStep(letters, k, host);
    if ScanDrive(letters[k], host).Failure? {
      DriveAbortsScan(letters, k, host);
    }
  }

  /** An exception on line `i` of drive `k` ends the whole scan with that exception, wrapped. */
  lemma LineAbortsScan(k: nat, lines: seq<string>, i: nat, host: Host)
    requires k < |DriveLetters| && host.whereLines(DriveLetters[k]) == Some(lines)
    requires ScanDrives(DriveLetters[..k], host).Success?
    requires i < |lines| && ScanLines(lines[..i], host).Success?
    requires Candidate(lines[i], host).Failure?
    ensures ScanDrives(DriveLetters, host) == Failure(Wrap(ListErrorMessage, Candidate(lines[i], host).error))
  {
    LineAbortsDrive(lines, i, host);
    DriveAbortsScan(DriveLetters, k, host);
  }

  /** Part `i` of a drive scan is drive `i`'s. */
  lemma DrivePartsAt(letters: seq<char>, i: nat, host: Host)
    requires i < |letters|
    ensures DriveParts(letters, host)[i] == ScanDrive(letters[i], host)
  {
    var a, b := letters[..i + 1], letters[i + 1..];
    assert a + b == letters;
    DrivePartsAppend(a, b, host);
    DrivePartsStep(letters, i, host);
  }

  /** A drive whose scan throws makes the whole discovery fail: no partial list is returned,
      and the exception is that of the first drive that threw. */
  lemma FailingDriveAborts(k: nat, host: Host)
    requires k < |DriveLetters| && ScanDrive(DriveLetters[k], host).Failure?
    ensures ScanDrives(DriveLetters, host).Failure?
    ensures exists j :: 0 <= j <= k && ScanDrives(DriveLetters, host) == ScanDrive(DriveLetters[j], host)
  {
    var parts := DriveParts(DriveLetters, host);
    DrivePartsAt(DriveLetters, k, host);
    GatherSucceeds(parts);
    GatherFirstFailure(parts);
    var j :| 0 <= j < |parts| && parts[j] == Gather(parts) && forall i :: 0 <= i < j ==> parts[i].Success?;
    DrivePartsAt(DriveLetters, j, host);
  }

  /** A line whose folder has no `bin\java.exe` contributes nothing: the scan is as if the
      line were absent. */
  lemma MissingExecutableIsSkipped(a: seq<string>, line: string, b: seq<string>, host: Host)
    requires !host.fileExists(ExecutablePath(Remove(line, BinJavaExe)))
    ensures ScanLines(a + [line] + b, host) == ScanLines(a + b, host)
  {
    SkippedLine(line, host);
    ScanLinesAppend(a + [line], b, host);
    ScanLinesAppend(a, [line], host);
    ScanLinesAppend(a, b, host);
    ThenNothing(ScanLines(a, host));
  }

  /** A line whose executable is missing contributes nothing on its own. */
  lemma SkippedLine(line: string, host: Host)
    requires !host.fileExists(ExecutablePath(Remove(line, BinJavaExe)))
    ensures ScanLines([line], host) == Success([])
  {
    ScanLinesStep([line], 0, host);
    assert [line][..1] == [line];
  }

  /** A part without records changes nothing. */
  lemma ThenNothing(x: Found)
    ensures Then(x, Success([])) == x
  {
    if x.Success? {
      assert x.value + [] == x.value;
    }
  }

  /** For a line `p\bin\java.exe` printed by `where`, the executable probed is that very file. */
  lemma CandidateRoundTrip(p: string)
    requires p != [] && !IsSeparator(p[|p| - 1])
    requires FirstAt(p + BinJavaExe, BinJavaExe, |p|)
    ensures ExecutablePath(Remove(p + BinJavaExe, BinJavaExe)) == p + BinJavaExe
  {
    RemoveTrailing(p, BinJavaExe);
  }
}

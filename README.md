# Elake launcher core: mirror selection, version catalog and Java discovery

This project is a Dafny model of two classes of the Elake Minecraft launcher core, with
proofs about them.

- `ElakeResources` chooses between the Mojang and BMCLAPI mirrors of the version manifest.
  It fetches the manifest into the process-wide `VersionJson` slot, and answers three queries
  on a manifest document: the latest snapshot, the latest release, and the filtered version
  catalog (rows of `VersionInfoList`).
- `AuxiliaryTools` reads the version and the bitness of a Java runtime from the diagnostic
  output of `java -version`. It also discovers every runtime on drives `A:` to `Z:` through
  `where /R`, producing a list of `JavaInfo` records.

Files:

- `wrappers.dfy`: `Option` and `Result`.
- `text.dfy`: ordinal `IndexOf`, `Contains` and `Replace(pat, "")`.
- `json.dfy`: a parsed JSON document as a tree, and the semantics of `GetProperty` and
  `GetString`.
- `manifest.dfy`: `ElakeResources` as a class whose field `versionJson` is the shared slot.
- `java.dfy`: the Java discovery.

What the model treats as inputs (oracles):

- The network. A probe outcome is `Failed | Elapsed(ms)`, and the GET helper is a function
  from a URL to an optional body.
- The JSON tokeniser: a function from text to `Malformed | Parsed(root)`.
- The machine, bundled in a `Host`:
  - whether a file exists;
  - what each `java -version` launch writes to standard error, or that it could not start;
  - the lines `where` prints for a drive, or that the process failed.

The loops of the source stay loops:

- the probe loop of `AutomaticallySelectSource`;
- the `foreach` over the catalog array in `GetVersionList`;
- the drive loop and the line loop of `GetJavaList`.

Each loop is proved equal to a specification function: the probe loop to `ChooseSource`, and
the other loops to the recursive functions `Collect`, `ScanLines` and `ScanDrives`. What the
source promises is proved about those functions.

Behaviours of the code worth noting, each modelled as the code has it:

- A mirror race that ends in an exact tie selects BMCLAPI (ElakeResources.cs:62).
- An unparsable `java -version` output does not drop the runtime. `GetJavaVersion` throws,
  and the throw aborts the whole discovery.
- `GetJavaBitness` never fails on any text, but it does throw when the process cannot be
  started. Its exception carries the same message as the version error.
- The folder of a discovered runtime is the `where` line with every `\bin\java.exe` removed,
  not the executable's grandparent directory.
- A catalog row whose field is JSON `null` is kept, with a null field. `GetString` returns
  null for JSON `null`, so only a missing or non-string field fails the listing.

## Model

| member | source | states |
|---|---|---|
| Manifest.ChooseSource | ElakeResources.cs:38-62 | the label is "MoJang" or "BMCLAPI"; any failed probe gives "MoJang"; with two timings it is "MoJang" exactly when Mojang was strictly faster, so a tie gives "BMCLAPI" |
| Manifest.ElakeResources.constructor | ElakeResources.cs:17 | the shared manifest slot starts out null |
| Manifest.ElakeResources.AutomaticallySelectSource | ElakeResources.cs:26-63 | the probe loop returns the `ChooseSource` label of the two probe outcomes; the URLs requested are only the Mojang one when its probe fails, else both, in order |
| Manifest.SourceUrl | ElakeResources.cs:75-83 | the URL is one of the two manifest URLs, and it is the Mojang URL exactly when the source is "MoJang"; any other label selects BMCLAPI |
| Manifest.SelectedLabelFetchesWinner | ElakeResources.cs:62 | feeding the chosen label to the URL choice fetches from BMCLAPI exactly when both probes succeeded and BMCLAPI was not slower |
| Manifest.ElakeResources.InitializeSource | ElakeResources.cs:73-91 | returns true exactly when the body is non-null, non-empty and free of "HttpRequestException"; on true the slot holds exactly that body, on false the slot is unchanged |
| Manifest.Accepted | ElakeResources.cs:85 | a response is accepted exactly when it is non-null, non-empty and "HttpRequestException" occurs nowhere in it |
| Manifest.LatestOf | ElakeResources.cs:112-119 | any string returned is the one at `latest.kind`; when a string is there it is returned; every other shape gives null |
| Manifest.ElakeResources.GetNewSnapshot | ElakeResources.cs:101-121 | on the argument, or on the slot when the argument is null, the result is the string at `latest.snapshot` when the document parses and has one, and null otherwise |
| Manifest.ElakeResources.GetNewRelease | ElakeResources.cs:131-150 | the same as `GetNewSnapshot`, for `latest.release` |
| Manifest.Document | ElakeResources.cs:105-108 | a null argument selects the slot's text and any other argument is read as given, so the text read is null only when both are (also at 135-138 and 167-170) |
| Manifest.NullArgumentListsSlot | ElakeResources.cs:167-170 | `GetVersionList` with a null argument returns the same listing as with the slot's text passed explicitly |
| Manifest.AcquireThenQueryRelease | ElakeResources.cs:84-89 | after a successful `InitializeSource`, `GetNewRelease(null)` returns `latest.release` of the fetched body |
| Manifest.Load | ElakeResources.cs:105-109 | a document is obtained exactly when the text is non-null and parses, and it is then the parsed root; a null text fails like a malformed one (also at lines 135-139 and 167-172) |
| Manifest.Versions | ElakeResources.cs:175 | the catalog is obtained exactly when the document loads, its root is an object and it has a `versions` member, and it is then that member |
| Manifest.ReadRow | ElakeResources.cs:181-185 | a row reads exactly when all five members exist and are strings or JSON null; the entry then holds those five values unchanged |
| Manifest.Field | ElakeResources.cs:181-185 | one `GetProperty(name).GetString()` succeeds exactly when the row is an object whose member `name` is a string or JSON null, and the member is then the encoding of the value read |
| Manifest.ReadRowObject | ElakeResources.cs:181-197 | an object holding the five fields of an entry reads back as that entry |
| Manifest.Keep | ElakeResources.cs:186-189 | "release" is dropped exactly when `!Release`; "snapshot" exactly when `!Snapshot`; "old_beta" and "old_alpha" exactly when `!Old`; any other type is kept |
| Manifest.Collect | ElakeResources.cs:179-198 | the listing is null exactly when some row cannot be read; otherwise it has at most one entry per row, and every entry's type is one the flags keep |
| Manifest.CollectRows | ElakeResources.cs:179-198 | the `foreach`/`continue`/`Add` loop computes `Collect` of the array |
| Manifest.CollectStep | ElakeResources.cs:179-197 | one more row is read after the earlier rows: it nulls the listing if unreadable, and is appended if kept |
| Manifest.CollectAppend | ElakeResources.cs:179-198 | concatenated row ranges list their entries in document order, and an unreadable row in either range nulls the listing |
| Manifest.CollectSnoc | ElakeResources.cs:186-197 | a readable row after a range is appended to its listing when kept, and skipped otherwise |
| Manifest.KeptBounds | ElakeResources.cs:179-189 | the kept positions are row positions in strictly increasing order |
| Manifest.KeptExactly | ElakeResources.cs:181-189 | a position is kept exactly when its row is readable and the flags keep its type |
| Manifest.CollectKept | ElakeResources.cs:179-197 | the listing is the subsequence of kept rows: one entry per kept position, each the row there copied unchanged |
| Manifest.AllFlagsKeepEveryRow | ElakeResources.cs:186-190 | with all three flags set, the listing has one entry per row, each equal to the row at the same position |
| Manifest.ListingWithoutReleases | ElakeResources.cs:186-189 | `Release = false` with a release, snapshot, old_beta and old_alpha row lists the last three in order |
| Manifest.FirstRowDropped | ElakeResources.cs:186-197 | four readable rows whose first is dropped by the flags list the other three, in order |
| Manifest.VersionListOf | ElakeResources.cs:165-206 | an unparsable document or a missing `versions` gives null; a `versions` that is not an array gives an empty list; for an array, the result is null exactly when some row cannot be read |
| Manifest.ElakeResources.GetVersionList | ElakeResources.cs:163-207 | on the argument, or on the slot when the argument is null, the method returns `VersionListOf` of that document and the three flags |
| Json.GetProperty | ElakeResources.cs:113 | a member is found exactly on an object that has it, and is that member; non-objects and missing keys are the two distinct errors |
| Json.GetString | ElakeResources.cs:114 | a string gives its text, JSON null gives null, and every other kind throws |
| Json.StringAtPair | ElakeResources.cs:113-114 | a two-member path reaches a string exactly when both members exist and the inner one is that string |
| Text.IndexOf | AuxiliaryTools.cs:50-54 | returns the first position at or after `from` where the pattern occurs, or -1 exactly when there is none |
| Text.Contains | AuxiliaryTools.cs:102 | true exactly when the pattern occurs somewhere |
| Text.Remove | AuxiliaryTools.cs:153 | removal never lengthens the text, shortens it when the pattern occurs, and leaves it unchanged when it does not |
| Text.RemoveFirst | AuxiliaryTools.cs:153 | replacement runs left to right: text before the first occurrence is kept, the occurrence is removed, and the rest is replaced in turn; with the no-occurrence case of `Remove` this determines the result on every input |
| Text.RemoveTrailing | AuxiliaryTools.cs:153 | when the only occurrence of the pattern ends the text, removing it gives back the text before it |
| JavaDiscovery.ExecutablePath | AuxiliaryTools.cs:25 | the folder is a prefix of the path, followed by `bin\java.exe`; the separator before `bin` is added exactly when the folder is non-empty and does not already end in `\` or `/` |
| JavaDiscovery.ExtractVersion | AuxiliaryTools.cs:50-60 | an extracted version implies the marker occurs, and the marker plus the version fit strictly inside the output; `ExtractedIsQuoted`, `NothingExtracted` and `VersionRoundTrip` characterise it fully |
| JavaDiscovery.ExtractedIsQuoted | AuxiliaryTools.cs:50-57 | an extracted version is the quote-free text between the end of the first `version "` and the next quote |
| JavaDiscovery.NothingExtracted | AuxiliaryTools.cs:50-60 | nothing is extracted exactly when the marker is missing or no quote follows the first marker |
| JavaDiscovery.VersionRoundTrip | AuxiliaryTools.cs:50-57 | the first marker followed by a quoted `v` yields exactly `v` |
| JavaDiscovery.MarkedVersionRoundTrip | AuxiliaryTools.cs:50-57 | writing a quote-free version after a first marker with a closing quote, and extracting it, gives the version back |
| JavaDiscovery.VersionOfJava21 | AuxiliaryTools.cs:48-57 | `java version "21.0.4"` yields `21.0.4` |
| JavaDiscovery.GetJavaVersion | AuxiliaryTools.cs:22-66 | without `bin\java.exe` the result is the sentinel and no launch is consulted; otherwise it succeeds exactly when the launch ran and a version is extracted, returning that version; every failure is an `InvalidOperationException` with the version message wrapping a cause |
| JavaDiscovery.GetJavaBitness | AuxiliaryTools.cs:76-115 | without `bin\java.exe` the result is the sentinel; otherwise it fails exactly when the launch fails, with the wrapped error; on success it is "64" exactly when the output contains `64-Bit`, and "32" otherwise |
| JavaDiscovery.UnparsableOutput | AuxiliaryTools.cs:50-64 | output without the marker fails the version with the parse error wrapped, while the bitness of the same output succeeds |
| JavaDiscovery.Candidate | AuxiliaryTools.cs:153-158 | a line is skipped exactly when its version is the sentinel, and a missing executable always skips it; a record holds the stripped path and the version and bitness read from it |
| JavaDiscovery.LoopBodyIsCandidate | AuxiliaryTools.cs:153-158 | the loop body, reading version then bitness, yields a version failure first, then a bitness failure, else no record for the sentinel and one record otherwise |
| JavaDiscovery.CandidateListed | AuxiliaryTools.cs:157-158 | a line yields at most one record, never one with the sentinel version |
| JavaDiscovery.CandidateRoundTrip | AuxiliaryTools.cs:153 | for a `where` line `p\bin\java.exe`, the executable probed is that very file |
| JavaDiscovery.ScanLines | AuxiliaryTools.cs:151-159 | the records of a drive's lines number at most one per line, and none has the sentinel version |
| JavaDiscovery.ScanDrive | AuxiliaryTools.cs:130-165 | a drive fails only with "发生错误" wrapping the cause; on success `where` ran and the result is its lines' records |
| JavaDiscovery.ScanDrives | AuxiliaryTools.cs:127-168 | the records number at most one per printed line, and none has the sentinel version; any failure is "发生错误" wrapping a cause |
| JavaDiscovery.ScanOutput | AuxiliaryTools.cs:148-160 | the line loop appends the records of the drive's lines to the list so far, or stops with the first line's exception |
| JavaDiscovery.GetJavaList | AuxiliaryTools.cs:124-169 | the nested loops compute `ScanDrives` over the 26 letters `A` to `Z` |
| JavaDiscovery.GatherAppend | AuxiliaryTools.cs:128-159 | records of consecutive parts come in order, and the earlier part's exception wins |
| JavaDiscovery.GatherSucceeds | AuxiliaryTools.cs:138-165 | a scan succeeds exactly when every part does |
| JavaDiscovery.GatherFirstFailure | AuxiliaryTools.cs:138-165 | a failed scan carries the exception of a part before which every part succeeded |
| JavaDiscovery.ScanLinesAppend | AuxiliaryTools.cs:151-159 | records of `a + b` lines are those of `a` then those of `b`, with no sorting; an exception in `a` ends the drive |
| JavaDiscovery.ScanDrivesAppend | AuxiliaryTools.cs:128-167 | records appear in drive order, then line order, with no sorting; an exception on an earlier drive ends the scan |
| JavaDiscovery.LineAbortsDrive | AuxiliaryTools.cs:151-159 | the exception of the first failing line is the drive's outcome |
| JavaDiscovery.DriveAbortsScan | AuxiliaryTools.cs:128-165 | the first failing drive's exception is the whole call's outcome |
| JavaDiscovery.LineAbortsScan | AuxiliaryTools.cs:138-165 | an exception on any line of any drive, after successful earlier ones, ends the whole discovery with that exception wrapped in "发生错误"; no partial list |
| JavaDiscovery.FailingDriveAborts | AuxiliaryTools.cs:138-165 | one throwing drive makes the whole discovery fail, with the exception of the first drive that threw |
| JavaDiscovery.MissingExecutableIsSkipped | AuxiliaryTools.cs:153-157 | a line whose folder has no `bin\java.exe` leaves the records exactly as if the line were absent |

## Left out

- HTTP, `HttpClient`, `Stopwatch` and `async`/`await` (ElakeResources.cs:36-45) are left out. Each probe is an input `Failed | Elapsed(ms)`, and a non-success status counts as `Failed`.
- `ElakeAuxiliaryTools.GETRequest` is not part of this model. It is a URL-to-optional-body function given to `InitializeSource`.
- JSON tokenising is left out: parsing is a text-to-tree function that may report `Malformed`.
  - Objects are maps, so duplicate member names are not modelled.
  - Disposal of the `JsonDocument` is not modelled.
- Processes, `cmd.exe /c where /R`, `File.Exists` and the reading of standard output and standard error are oracles of a `Host`.
  - The two `-version` launches per folder are separate oracles, so they may differ.
  - `StringReader.ReadLine` splitting is taken as a given sequence of lines.
- `Path.Combine` is modelled as on .NET Core and .NET 5 or later on Windows: a `\` is inserted unless the folder is empty or already ends in `\` or `/`.
  - .NET Framework also treats a trailing `:` as a separator: it turns the `where` line `C:\bin\java.exe`, stripped to `C:`, into `C:bin\java.exe`. The model gives `C:\bin\java.exe`.
  - Rooted segments and invalid characters are not modelled.
- The culture-sensitive `IndexOf(string)` is modelled as ordinal search. The markers searched for are ASCII.
- Strings are sequences of Unicode scalar values, while .NET strings are UTF-16 code units, and `IndexOf` and `Substring` count code units. The markers are ASCII, so the extracted text is the same. Text with lone surrogates cannot be represented.
- Races on the unsynchronised static `VersionJson` are out of scope. It is a field of one `ElakeResources` object. The four members that read or write `VersionJson` are members of that object, and `AutomaticallySelectSource` stays static.
- `try`/`catch` is modelled by `Option`/`Result`, and exception stack traces are not modelled.
  - A `catch` that returns null produces `None`.
  - A rethrow produces an `InvalidOperation` value that wraps the cause.
- Two loop bodies are factored out of their methods, with unchanged behaviour:
  - the catalog loop of `GetVersionList` is `CollectRows`;
  - the line loop of `GetJavaList` is `ScanOutput`.
- The `continue` chain of the catalog loop is one call to `Keep`.
- `AutomaticallySelectSource` keeps the two delays as unbounded integers that start at `long.MaxValue`. A measured time is never near that bound, so no overflow is modelled.

/** The mirror selector, the process-wide manifest slot and the catalog queries of
    `ElakeResources`. Network, timing and JSON tokenising are oracles. */
module Manifest {
  import opened Wrappers
  import opened Json
  import Text

  const MojangLabel: string := "MoJang"
  const BmclapiLabel: string := "BMCLAPI"
  const MojangUrl: string := "https://piston-meta.mojang.com/mc/game/version_manifest_v2.json"
  const BmclapiUrl: string := "https://bmclapi2.bangbang93.com/mc/game/version_manifest_v2.json"

  /** The mirrors in probe order: the primary (Mojang) first. */
  const Urls: seq<string> := [MojangUrl, BmclapiUrl]

  /** `long.MaxValue`, the initial "not measured" delay of each mirror. */
  const LongMaxValue: int := 0x7FFF_FFFF_FFFF_FFFF

  /** A response body containing this text is an error report, not a manifest. */
  const ErrorMarker: string := "HttpRequestException"

  /** Outcome of one timed GET: it failed (transport error or non-success status), or it
      succeeded after `ms` milliseconds. */
  datatype Probe = Failed | Elapsed(ms: nat)

  // ---------------------------------------------------------------- mirror selection

  /** The label the two-way race yields for the two probe outcomes. */
  function ChooseSource(mojang: Probe, bmclapi: Probe): (chosen: string)
    ensures chosen == MojangLabel || chosen == BmclapiLabel
    ensures mojang.Failed? || bmclapi.Failed? ==> chosen == MojangLabel
    ensures mojang.Elapsed? && bmclapi.Elapsed? ==> (chosen == MojangLabel <==> mojang.ms < bmclapi.ms)
    ensures mojang.Elapsed? && bmclapi.Elapsed? && mojang.ms == bmclapi.ms ==> chosen == BmclapiLabel
  {
    if mojang.Failed? || bmclapi.Failed? then MojangLabel
    else if mojang.ms < bmclapi.ms then MojangLabel
    else BmclapiLabel
  }

  /** The manifest URL `InitializeSource` fetches for a source chosen. */
  function SourceUrl(source: string): (url: string)
    ensures url in Urls
    ensures url == MojangUrl <==> source == MojangLabel
  {
    if source == MojangLabel then MojangUrl else BmclapiUrl
  }

  /** The label chosen by the race makes `InitializeSource` fetch from BMCLAPI when both
      probes succeeded and BMCLAPI was not slower (a tie goes to BMCLAPI), else from Mojang. */
  lemma SelectedLabelFetchesWinner(mojang: Probe, bmclapi: Probe)
    ensures SourceUrl(ChooseSource(mojang, bmclapi)) ==
      if mojang.Elapsed? && bmclapi.Elapsed? && bmclapi.ms <= mojang.ms then BmclapiUrl else MojangUrl
  {
  }

  // ---------------------------------------------------------------- manifest acquisition

  /** The response test of `InitializeSource`: not null, not empty, and not an exception text. */
  function Accepted(response: Option<string>): (ok: bool)
    ensures ok <==>
      response.Some? && |response.value| > 0 && !exists i :: Text.OccursAt(response.value, ErrorMarker, i)
  {
    response.Some? && response.value != [] && !Text.Contains(response.value, ErrorMarker)
  }

  // ---------------------------------------------------------------- catalog queries

  /** `JsonDocument.Parse` of a possibly-null text: a `null` text throws like a malformed one. */
  function Load(doc: Option<string>, parse: string -> ParseResult): (r: Option<Json>)
    ensures r.Some? <==> doc.Some? && parse(doc.value).Parsed?
    ensures r.Some? ==> parse(doc.value) == Parsed(r.value)
  {
    if doc.None? then None
    else match parse(doc.value)
      case Malformed => None
      case Parsed(root) => Some(root)
  }

  /** The document a query reads: its argument, or the shared slot when the argument is null. */
  function Document(sourceJson: Option<string>, current: Option<string>): (r: Option<string>)
    ensures r == sourceJson || r == current
    ensures r.None? <==> sourceJson.None? && current.None?
    ensures sourceJson.Some? ==> r == sourceJson
  {
    if sourceJson.None? then current else sourceJson
  }

  const LatestRelease: seq<string> := ["latest", "release"]
  const LatestSnapshot: seq<string> := ["latest", "snapshot"]

  /** `root.GetProperty("latest").GetProperty(kind).GetString()`, with every exception read as null. */
  function LatestOf(root: Json, kind: string): (r: Option<string>)
    ensures r.Some? ==> StringAt(root, ["latest", kind], r.value)
    ensures forall s :: StringAt(root, ["latest", kind], s) ==> r == Some(s)
  {
    StringAtPair(root, "latest", kind);
    match GetProperty(root, "latest")
    case Failure(_) => None
    case Success(latest) =>
      match GetProperty(latest, kind)
      case Failure(_) => None
      case Success(field) =>
        match GetString(field)
        case Failure(_) => None
        case Success(text) => text
  }

  /** One catalog row as copied out of the document. A JSON `null` field reads as a .NET
      `null` (`None`) and does not fail the row. */
  datatype VersionInfo = VersionInfo(
    name: Option<string>,
    kind: Option<string>,
    url: Option<string>,
    time: Option<string>,
    sha1: Option<string>)

  /** The three inclusion flags of `GetVersionList`. */
  datatype Flags = Flags(release: bool, snapshot: bool, legacy: bool)

  /** The JSON value that `GetString` reads back as `s`. */
  function Encode(s: Option<string>): Json
  {
    if s.None? then JNull else JString(s.value)
  }

  /** `item.GetProperty(name).GetString()`. */
  function Field(item: Json, name: string): (r: Result<Option<string>, JsonError>)
    ensures r.Success? <==> Readable(item, name)
    ensures r.Success? ==> item.members[name] == Encode(r.value)
  {
    var value :- GetProperty(item, name);
    GetString(value)
  }

  /** A member that `Field` reads without throwing. */
  predicate Readable(item: Json, name: string)
  {
    item.JObject? && name in item.members && (item.members[name].JString? || item.members[name].JNull?)
  }

  /** The five reads of one row, in source order; the first exception fails the row. */
  function ReadRow(item: Json): (r: Result<VersionInfo, JsonError>)
    ensures r.Success? <==>
      Readable(item, "id") && Readable(item, "type") && Readable(item, "url") &&
      Readable(item, "releaseTime") && Readable(item, "sha1")
    ensures r.Success? ==>
      item.members["id"] == Encode(r.value.name) &&
      item.members["type"] == Encode(r.value.kind) &&
      item.members["url"] == Encode(r.value.url) &&
      item.members["releaseTime"] == Encode(r.value.time) &&
      item.members["sha1"] == Encode(r.value.sha1)
  {
    var id :- Field(item, "id");
    var kind :- Field(item, "type");
    var url :- Field(item, "url");
    var time :- Field(item, "releaseTime");
    var sha1 :- Field(item, "sha1");
    Success(VersionInfo(id, kind, url, time, sha1))
  }

  /** Whether a row of type `kind` survives the `continue` chain of `GetVersionList`. */
  function Keep(kind: Option<string>, f: Flags): (keep: bool)
    ensures kind == Some("release") ==> (keep <==> f.release)
    ensures kind == Some("snapshot") ==> (keep <==> f.snapshot)
    ensures kind == Some("old_beta") || kind == Some("old_alpha") ==> (keep <==> f.legacy)
    ensures (kind != Some("release") && kind != Some("snapshot") &&
             kind != Some("old_beta") && kind != Some("old_alpha")) ==> keep
  {
    if kind == Some("release") && !f.release then false
    else if kind == Some("snapshot") && !f.snapshot then false
    else if kind == Some("old_beta") && !f.legacy then false
    else if kind == Some("old_alpha") && !f.legacy then false
    else true
  }

  /** The rows kept from `rows`, in order, or null as soon as one row cannot be read. */
  function Collect(rows: seq<Json>, f: Flags): (r: Option<seq<VersionInfo>>)
    ensures r.None? <==> exists i :: 0 <= i < |rows| && ReadRow(rows[i]).Failure?
    ensures r.Some? ==> |r.value| <= |rows|
    ensures r.Some? ==> forall k :: 0 <= k < |r.value| ==> Keep(r.value[k].kind, f)
    decreases |rows|
  {
    if rows == [] then Some([])
    else
      var init := rows[..|rows| - 1];
      var prefix := Collect(init, f);
      var row := ReadRow(rows[|rows| - 1]);
      assert forall i :: 0 <= i < |init| ==> init[i] == rows[i];
      if prefix.None? || row.Failure? then None
      else if Keep(row.value.kind, f) then Some(prefix.value + [row.value])
      else prefix
  }

  /** The `versions` member of the parsed document, if the text parses to an object that has one. */
  function Versions(doc: Option<string>, parse: string -> ParseResult): (r: Option<Json>)
    ensures r.Some? <==>
      Load(doc, parse).Some? && Load(doc, parse).value.JObject? && "versions" in Load(doc, parse).value.members
    ensures r.Some? ==> r.value == Load(doc, parse).value.members["versions"]
  {
    match Load(doc, parse)
    case None => None
    case Some(root) =>
      match GetProperty(root, "versions")
      case Failure(_) => None
      case Success(v) => Some(v)
  }

  /** What `GetVersionList` returns for a document. */
  function VersionListOf(doc: Option<string>, parse: string -> ParseResult, f: Flags): (r: Option<seq<VersionInfo>>)
    ensures Versions(doc, parse).None? ==> r.None?
    ensures Versions(doc, parse).Some? && !Versions(doc, parse).value.JArray? ==> r == Some([])
    ensures Versions(doc, parse).Some? && Versions(doc, parse).value.JArray? ==>
      var rows := Versions(doc, parse).value.items;
      (r.None? <==> exists i :: 0 <= i < |rows| && ReadRow(rows[i]).Failure?)
  {
    match Versions(doc, parse)
    case None => None
    case Some(v) => if v.JArray? then Collect(v.items, f) else Some([])
  }

  /** The rows of `a + b` are those of `a` followed by those of `b` (document order, no
      sorting), and an unreadable row anywhere makes the whole listing null. */
  lemma {:induction false} CollectAppend(a: seq<Json>, b: seq<Json>, f: Flags)
    ensures Collect(a + b, f) ==
      if Collect(a, f).Some? && Collect(b, f).Some? then Some(Collect(a, f).value + Collect(b, f).value)
      else None
    decreases |b|
  {
    if b == [] {
      assert a + b == a;
      assert Collect(b, f) == Some([]);
      if Collect(a, f).Some? {
        assert Collect(a, f).value + [] == Collect(a, f).value;
      }
    } else {
      var init := b[..|b| - 1];
      assert (a + b)[..|a + b| - 1] == a + init;
      assert (a + b)[|a + b| - 1] == b[|b| - 1];
      CollectAppend(a, init, f);
      if Collect(a, f).Some? && Collect(b, f).Some? {
        var x, y := Collect(a, f).value, Collect(init, f).value;
        assert x + (y + [ReadRow(b[|b| - 1]).value]) == x + y + [ReadRow(b[|b| - 1]).value];
      }
    }
  }

  /** One more row: it is read after the rows before it, and appended when the flags keep it. */
  lemma CollectStep(rows: seq<Json>, i: nat, f: Flags)
    requires i < |rows|
    ensures Collect(rows[..i + 1], f) ==
      var prefix, row := Collect(rows[..i], f), ReadRow(rows[i]);
      if prefix.None? || row.Failure? then None
      else if Keep(row.value.kind, f) then Some(prefix.value + [row.value])
      else prefix
  {
    assert rows[..i + 1][..i] == rows[..i];
  }

  /** The `foreach` over the catalog array of `GetVersionList`: the rows the flags keep, in
      order, or null at the first row that cannot be read. */
  method CollectRows(items: seq<Json>, f: Flags) returns (r: Option<seq<VersionInfo>>)
    ensures r == Collect(items, f)
  {
    var versionList: seq<VersionInfo> := [];
    var i := 0;
    assert items[..i] == [];
    while i < |items|
      invariant 0 <= i <= |items|
      invariant Collect(items[..i], f) == Some(versionList)
    {
      CollectStep(items, i, f);
      var row := ReadRow(items[i]);
      if row.Failure? {
        return None;
      }
      var info := row.value;
      i := i + 1;
      if !Keep(info.kind, f) {
        continue;
      }
      versionList := versionList + [info];
    }
    assert items[..i] == items;
    return Some(versionList);
  }

  /** With every flag set nothing is filtered: each row gives one entry, at its own position. */
  lemma {:induction false} AllFlagsKeepEveryRow(rows: seq<Json>)
    requires Collect(rows, Flags(true, true, true)).Some?
    ensures |Collect(rows, Flags(true, true, true)).value| == |rows|
    ensures forall k :: 0 <= k < |rows| ==>
      Collect(rows, Flags(true, true, true)).value[k] == ReadRow(rows[k]).value
    decreases |rows|
  {
    if rows != [] {
      var init := rows[..|rows| - 1];
      assert forall k :: 0 <= k < |init| ==> init[k] == rows[k];
      AllFlagsKeepEveryRow(init);
    }
  }

  /** The positions of the rows the flags keep, in increasing order. */
  function Kept(rows: seq<Json>, f: Flags): seq<nat>
    decreases |rows|
  {
    if rows == [] then []
    else
      var row := ReadRow(rows[|rows| - 1]);
      Kept(rows[..|rows| - 1], f) + if row.Success? && Keep(row.value.kind, f) then [|rows| - 1] else []
  }

  /** The kept positions are positions of the catalog, in increasing order. */
  lemma {:induction false} KeptBounds(rows: seq<Json>, f: Flags)
    ensures forall k :: 0 <= k < |Kept(rows, f)| ==> Kept(rows, f)[k] < |rows|
    ensures forall k, l :: 0 <= k < l < |Kept(rows, f)| ==> Kept(rows, f)[k] < Kept(rows, f)[l]
    decreases |rows|
  {
    if rows != [] {
      KeptBounds(rows[..|rows| - 1], f);
    }
  }

  /** A position is kept exactly when its row is readable and the flags keep its type. */
  lemma {:induction false} KeptExactly(rows: seq<Json>, f: Flags)
    ensures forall i :: 0 <= i < |rows| ==>
      (i in Kept(rows, f) <==> ReadRow(rows[i]).Success? && Keep(ReadRow(rows[i]).value.kind, f))
    decreases |rows|
  {
    if rows != [] {
      var n := |rows| - 1;
      var init := rows[..n];
      var row := ReadRow(rows[n]);
      var tail: seq<nat> := if row.Success? && Keep(row.value.kind, f) then [n] else [];
      assert Kept(rows, f) == Kept(init, f) + tail;
      KeptExactly(init, f);
      KeptBounds(init, f);
      forall i | 0 <= i < |rows|
        ensures i in Kept(rows, f) <==> ReadRow(rows[i]).Success? && Keep(ReadRow(rows[i]).value.kind, f)
      {
        if i < n {
          assert init[i] == rows[i];
          assert i !in tail;
        } else {
          assert n !in Kept(init, f);
        }
      }
    }
  }

  /** The listing is the subsequence of kept rows: entry `k` is the row at the `k`-th kept
      position, its five fields copied unchanged. */
  lemma {:induction false} CollectKept(rows: seq<Json>, f: Flags)
    requires Collect(rows, f).Some?
    ensures |Collect(rows, f).value| == |Kept(rows, f)|
    ensures forall k :: 0 <= k < |Kept(rows, f)| ==>
      Kept(rows, f)[k] < |rows| && Collect(rows, f).value[k] == ReadRow(rows[Kept(rows, f)[k]]).value
    decreases |rows|
  {
    KeptBounds(rows, f);
    if rows != [] {
      var n := |rows| - 1;
      var init := rows[..n];
      CollectKept(init, f);
      KeptBounds(init, f);
      assert forall i :: 0 <= i < n ==> init[i] == rows[i];
    }
  }

  /** The object whose five members read back as `e`. */
  function RowObject(e: VersionInfo): Json
  {
    JObject(map[
      "id" := Encode(e.name), "type" := Encode(e.kind), "url" := Encode(e.url),
      "releaseTime" := Encode(e.time), "sha1" := Encode(e.sha1)])
  }

  /** Each entry copies the five fields of its row unchanged. */
  lemma ReadRowObject(e: VersionInfo)
    ensures ReadRow(RowObject(e)) == Success(e)
  {
    var item := RowObject(e);
    FieldOf(item, "id", e.name);
    FieldOf(item, "type", e.kind);
    FieldOf(item, "url", e.url);
    FieldOf(item, "releaseTime", e.time);
    FieldOf(item, "sha1", e.sha1);
  }

  /** A member holding `Encode(s)` reads back as `s`. */
  lemma FieldOf(item: Json, name: string, s: Option<string>)
    requires item.JObject? && name in item.members && item.members[name] == Encode(s)
    ensures Field(item, name) == Success(s)
  {
  }

  /** Excluding releases from a catalog with one row of each kind leaves the snapshot and the
      two legacy rows, in their original order. */
  lemma ListingWithoutReleases(r1: Json, r2: Json, r3: Json, r4: Json,
                               release: VersionInfo, snapshot: VersionInfo, beta: VersionInfo, alpha: VersionInfo)
    requires ReadRow(r1) == Success(release) && release.kind == Some("release")
    requires ReadRow(r2) == Success(snapshot) && snapshot.kind == Some("snapshot")
    requires ReadRow(r3) == Success(beta) && beta.kind == Some("old_beta")
    requires ReadRow(r4) == Success(alpha) && alpha.kind == Some("old_alpha")
    ensures Collect([r1, r2, r3, r4], Flags(false, true, true)) == Some([snapshot, beta, alpha])
  {
    KeepAllButReleases(release.kind, snapshot.kind, beta.kind, alpha.kind);
    FirstRowDropped(r1, r2, r3, r4, release, snapshot, beta, alpha, Flags(false, true, true));
  }

  /** With only `Release` cleared, "release" is dropped and the other three types are kept. */
  lemma KeepAllButReleases(release: Option<string>, snapshot: Option<string>, beta: Option<string>, alpha: Option<string>)
    requires release == Some("release") && snapshot == Some("snapshot")
    requires beta == Some("old_beta") && alpha == Some("old_alpha")
    ensures var f := Flags(false, true, true);
      !Keep(release, f) && Keep(snapshot, f) && Keep(beta, f) && Keep(alpha, f)
  {
  }

  /** Four readable rows of which the flags drop the first. */
  lemma FirstRowDropped(r1: Json, r2: Json, r3: Json, r4: Json,
                        e1: VersionInfo, e2: VersionInfo, e3: VersionInfo, e4: VersionInfo, f: Flags)
    requires ReadRow(r1) == Success(e1) && ReadRow(r2) == Success(e2)
    requires ReadRow(r3) == Success(e3) && ReadRow(r4) == Success(e4)
    requires !Keep(e1.kind, f) && Keep(e2.kind, f) && Keep(e3.kind, f) && Keep(e4.kind, f)
    ensures Collect([r1, r2, r3, r4], f) == Some([e2, e3, e4])
  {
    CollectSnoc([], r1, e1, f);
    assert [] + [r1] == [r1];
    CollectSnoc([r1], r2, e2, f);
    assert [r1] + [r2] == [r1, r2];
    CollectSnoc([r1, r2], r3, e3, f);
    assert [r1, r2] + [r3] == [r1, r2, r3];
    CollectSnoc([r1, r2, r3], r4, e4, f);
    assert [r1, r2, r3] + [r4] == [r1, r2, r3, r4];
    assert [] + [e2] + [e3] + [e4] == [e2, e3, e4];
  }

  /** One more readable row after `rows`: it is appended when kept and skipped otherwise. */
  lemma CollectSnoc(rows: seq<Json>, row: Json, e: VersionInfo, f: Flags)
    requires ReadRow(row) == Success(e)
    ensures Collect(rows + [row], f) ==
      if Collect(rows, f).None? then None
      else if Keep(e.kind, f) then Some(Collect(rows, f).value + [e])
      else Collect(rows, f)
  {
    assert (rows + [row])[..|rows|] == rows;
  }

  /** `ElakeResources`: the shared manifest slot and the operations that fill and read it. */
  class ElakeResources {
    /** The process-wide manifest text (`VersionJson`); null until a fetch succeeds. */
    var versionJson: Option<string>

    constructor ()
      ensures versionJson == None
    {
      versionJson := None;
    }

    /** Probes the mirrors in order and names the faster one; `probed` lists the URLs
        requested, so a first failure is seen to stop before the second probe. */
    static method AutomaticallySelectSource(probe: string -> Probe) returns (chosen: string, probed: seq<string>)
      ensures chosen == ChooseSource(probe(MojangUrl), probe(BmclapiUrl))
      ensures probed == if probe(MojangUrl).Failed? then [MojangUrl] else Urls
    {
      var lowerDelayForMojang: int := LongMaxValue;
      var lowerDelayForBmclapi: int := LongMaxValue;
      probed := [];
      var i := 0;
      while i < |Urls|
        invariant 0 <= i <= |Urls|
        invariant probed == Urls[..i]
        invariant forall k :: 0 <= k < i ==> probe(Urls[k]).Elapsed?
        invariant lowerDelayForMojang == if i > 0 then probe(Urls[0]).ms else LongMaxValue
        invariant lowerDelayForBmclapi == if i > 1 then probe(Urls[1]).ms else LongMaxValue
      {
        var url := Urls[i];
        probed := probed + [url];
        match probe(url)
        case Failed =>
          return MojangLabel, probed;
        case Elapsed(ms) =>
          if url == Urls[0] {
            lowerDelayForMojang := ms;
          } else {
            lowerDelayForBmclapi := ms;
          }
        i := i + 1;
      }
      chosen := if lowerDelayForMojang < lowerDelayForBmclapi then MojangLabel else BmclapiLabel;
    }

    /** Fetches the manifest of `source` through `get` (null for no body) and, when the body
        is acceptable, makes it the shared manifest. */
    method InitializeSource(source: string := MojangLabel, get: string -> Option<string>) returns (ok: bool)
      modifies this
      ensures ok <==> Accepted(get(SourceUrl(source)))
      ensures ok ==> versionJson == get(SourceUrl(source))
      ensures !ok ==> versionJson == old(versionJson)
    {
      var url: string;
      if source == MojangLabel {
        url := MojangUrl;
      } else {
        url := BmclapiUrl;
      }
      var response := get(url);
      if response.None? || response.value == [] || Text.Contains(response.value, ErrorMarker) {
        return false;
      }
      versionJson := response;
      return true;
    }

    /** `latest.snapshot` of the document (the shared one when `sourceJson` is null), or null. */
    function GetNewSnapshot(sourceJson: Option<string> := None, parse: string -> ParseResult): (r: Option<string>)
      reads this
      ensures r.Some? ==>
        Load(Document(sourceJson, versionJson), parse).Some? &&
        StringAt(Load(Document(sourceJson, versionJson), parse).value, LatestSnapshot, r.value)
      ensures forall root, s ::
        Load(Document(sourceJson, versionJson), parse) == Some(root) && StringAt(root, LatestSnapshot, s) ==>
        r == Some(s)
    {
      match Load(Document(sourceJson, versionJson), parse)
      case None => None
      case Some(root) => LatestOf(root, "snapshot")
    }

    /** `latest.release` of the document (the shared one when `sourceJson` is null), or null. */
    function GetNewRelease(sourceJson: Option<string> := None, parse: string -> ParseResult): (r: Option<string>)
      reads this
      ensures r.Some? ==>
        Load(Document(sourceJson, versionJson), parse).Some? &&
        StringAt(Load(Document(sourceJson, versionJson), parse).value, LatestRelease, r.value)
      ensures forall root, s ::
        Load(Document(sourceJson, versionJson), parse) == Some(root) && StringAt(root, LatestRelease, s) ==>
        r == Some(s)
    {
      match Load(Document(sourceJson, versionJson), parse)
      case None => None
      case Some(root) => LatestOf(root, "release")
    }

    /** The catalog rows of the document (the shared one when `sourceJson` is null) that the
        flags keep, in document order; null when the document or a row cannot be read. */
    method GetVersionList(sourceJson: Option<string> := None, parse: string -> ParseResult,
                          release: bool := true, snapshot: bool := true, legacy: bool := true)
      returns (r: Option<seq<VersionInfo>>)
      ensures r == VersionListOf(Document(sourceJson, versionJson), parse, Flags(release, snapshot, legacy))
    {
      var doc := if sourceJson.None? then versionJson else sourceJson;
      if doc.None? {
        return None;
      }
      var parsed := parse(doc.value);
      if parsed.Malformed? {
        return None;
      }
      var versions := GetProperty(parsed.root, "versions");
      if versions.Failure? {
        return None;
      }
      if !versions.value.JArray? {
        return Some([]);
      }
      r := CollectRows(versions.value.items, Flags(release, snapshot, legacy));
    }
  }

  /** A null argument makes `GetVersionList` list the shared slot's text: the same call given that
      text explicitly returns the same listing. */
  method NullArgumentListsSlot(resources: ElakeResources, parse: string -> ParseResult,
                               release: bool, snapshot: bool, legacy: bool)
    returns (absent: Option<seq<VersionInfo>>, given: Option<seq<VersionInfo>>)
    ensures absent == given
  {
    absent := resources.GetVersionList(None, parse, release, snapshot, legacy);
    given := resources.GetVersionList(resources.versionJson, parse, release, snapshot, legacy);
  }

  /** Acquiring a manifest and then asking for the latest release reads back
      `latest.release` of the fetched body, unchanged. */
  method AcquireThenQueryRelease(source: string, get: string -> Option<string>, parse: string -> ParseResult)
    returns (ok: bool, release: Option<string>)
    ensures ok <==> Accepted(get(SourceUrl(source)))
    ensures ok ==> forall root, s ::
      parse(get(SourceUrl(source)).value) == Parsed(root) && StringAt(root, LatestRelease, s) ==>
      release == Some(s)
  {
    var resources := new ElakeResources();
    ok := resources.InitializeSource(source, get);
    release := resources.GetNewRelease(None, parse);
  }
}

/**
 The update resolver of the live-update server: given what a client reports
 about its installed app, decide whether the first release of the app's
 repository is newer and, if so, which package to download and which session
 key and checksum go with it.

 The two network calls of `get_update_info` are inputs here. `Feed` stands for the
 release listing: the releases of a repository in feed order, and no entry
 when fetching or decoding the listing failed. `Fetch` stands for reading an
 asset's text: the text behind a download URL, and no entry when the download
 failed.
 */
module LiveUpdate {
  import opened Wrappers
  import opened Strings

  /** A file attached to a release: the fields that decide the answer (the others are not read). */
  datatype Asset = Asset(name: string, browserDownloadUrl: string)

  /** A tagged release of the feed: the fields that decide the answer (its name is only logged). */
  datatype Release = Release(tagName: string, assets: seq<Asset>)

  /** What the client reports: the fields that decide the answer (platform and device id are only logged). */
  datatype AppInfos = AppInfos(appId: string, versionName: string)

  /** The answer; the datatype constructor plays the part of `UpdateInfo::new`. */
  datatype UpdateInfo = UpdateInfo(version: string, url: string, sessionKey: Option<string>, checksum: Option<string>)

  /** The (owner, repository) pair whose releases are listed. */
  datatype Repo = Repo(owner: string, name: string)

  type Feed = map<Repo, seq<Release>>
  type Fetch = map<string, string>

  const DefaultVersion: string := "0.0.1"
  const FallbackUrl: string := "https://github.com/Sinotrade/scone/releases/download/0.0.1s/yvictor.scone_0.0.1.zip"
  /** The answer before any release has been looked at. */
  const Defaults: UpdateInfo := UpdateInfo(DefaultVersion, FallbackUrl, None, None)

  /** The one aliased repository, and the owner it always belongs to. */
  const LegacyRepo: string := "scone"
  const CanonicalOwner: string := "Sinotrade"

  /** The version a client reports when it runs the app bundled at install time. */
  const Builtin: string := "builtin"

  const KeyAssetName: string := "key"
  const PackageSuffix: string := ".zip"
  const ChecksumSuffix: string := ".checksum"

  /**
   The application id split on '.', accepted only when it has exactly two
   pieces (either of which may be empty).
   */
  function SplitAppId(appId: string): (r: Option<(string, string)>)
    ensures r.Some? <==> CountOf(appId, '.') == 1
    ensures r.Some? ==> appId == r.value.0 + "." + r.value.1
    ensures r.Some? ==> '.' !in r.value.0 && '.' !in r.value.1
  {
    var parts := Split(appId, '.');
    if |parts| == 2 then
      assert Join(parts[1..], '.') == parts[1];
      Some((parts[0], parts[1]))
    else None
  }

  /** The repository whose releases are consulted, after the owner override. */
  function ResolveRepo(appId: string): Option<Repo>
  {
    match SplitAppId(appId)
    case None => None
    case Some((owner, repo)) =>
      Some(Repo(if repo == LegacyRepo then CanonicalOwner else owner, repo))
  }

  /** `list_releases(..).ok().unwrap_or_default()`: a failed listing reads as no releases. */
  function ListReleases(feed: Feed, repo: Repo): seq<Release>
  {
    if repo in feed then feed[repo] else []
  }

  /** Whether a release with tag `tagName` is an update for a client on `versionName`. */
  predicate IsNewer(versionName: string, tagName: string)
  {
    versionName == Builtin || LexLess(versionName, tagName)
  }

  /** Name of the checksum file that goes with a package: every ".zip" in it becomes ".checksum". */
  function ChecksumName(packageName: string): string
  {
    Replace(packageName, PackageSuffix, ChecksumSuffix)
  }

  /** `assets.iter().find(|a| a.name == name)`, as an index: the first asset with that exact name. */
  function FirstNamed(assets: seq<Asset>, name: string): (r: Option<nat>)
    ensures r.Some? ==> r.value < |assets| && assets[r.value].name == name
    ensures r.Some? ==> forall j :: 0 <= j < r.value ==> assets[j].name != name
    ensures r.None? ==> forall j :: 0 <= j < |assets| ==> assets[j].name != name
  {
    if |assets| == 0 then None
    else if assets[0].name == name then Some(0)
    else match FirstNamed(assets[1..], name)
      case None => None
      case Some(k) => Some(k + 1)
  }

  /** The answer after classifying one more asset `a` of the candidate release `rel`. */
  function Step(rel: Release, a: Asset, fetch: Fetch, acc: UpdateInfo): UpdateInfo
  {
    if a.name == KeyAssetName then
      if a.browserDownloadUrl in fetch then acc.(sessionKey := Some(Trim(fetch[a.browserDownloadUrl])))
      else acc
    else if EndsWith(a.name, PackageSuffix) then
      var chosen := acc.(version := rel.tagName, url := a.browserDownloadUrl);
      match FirstNamed(rel.assets, ChecksumName(a.name))
      case None => chosen
      case Some(k) =>
        var checksumUrl := rel.assets[k].browserDownloadUrl;
        if checksumUrl in fetch then chosen.(checksum := Some(Trim(fetch[checksumUrl]))) else chosen
    else acc
  }

  /** The answer after classifying the first `n` assets of `rel`, starting from `acc`. */
  function Classify(rel: Release, fetch: Fetch, acc: UpdateInfo, n: nat): UpdateInfo
    requires n <= |rel.assets|
  {
    if n == 0 then acc else Step(rel, rel.assets[n - 1], fetch, Classify(rel, fetch, acc, n - 1))
  }

  /** The resolver's answer as a function of the request, the feed and the fetchable texts. */
  function Resolve(app: AppInfos, feed: Feed, fetch: Fetch): Option<UpdateInfo>
  {
    match ResolveRepo(app.appId)
    case None => None
    case Some(repo) =>
      var releases := ListReleases(feed, repo);
      if |releases| == 0 then Some(Defaults)
      else if IsNewer(app.versionName, releases[0].tagName) then
        Some(Classify(releases[0], fetch, Defaults, |releases[0].assets|))
      else None
  }

  /** The linear `find` for the checksum asset: the index of the first asset named `name`. */
  method FindAsset(assets: seq<Asset>, name: string) returns (found: Option<nat>)
    ensures found.Some? ==> found.value < |assets| && assets[found.value].name == name
    ensures found.Some? ==> forall j :: 0 <= j < found.value ==> assets[j].name != name
    ensures found.None? ==> forall j :: 0 <= j < |assets| ==> assets[j].name != name
    ensures found == FirstNamed(assets, name)
  {
    var i := 0;
    while i < |assets|
      invariant i <= |assets|
      invariant forall j :: 0 <= j < i ==> assets[j].name != name
    {
      if assets[i].name == name {
        return Some(i);
      }
      i := i + 1;
    }
    return None;
  }

  /**
   `get_update_info`: None for a malformed application id or when the first
   release is not newer than the client's version; otherwise the defaults,
   overwritten by what the first release's assets provide.
   */
  method GetUpdateInfo(app: AppInfos, feed: Feed, fetch: Fetch) returns (r: Option<UpdateInfo>)
    ensures r == Resolve(app, feed, fetch)
  {
    var splitAppId := Split(app.appId, '.');
    if |splitAppId| != 2 {
      return None;
    }
    var repo := splitAppId[1];
    var owner := if repo == LegacyRepo then CanonicalOwner else splitAppId[0];

    var latestVersion := DefaultVersion;
    var url := FallbackUrl;
    var sessionKey: Option<string> := None;
    var checksum: Option<string> := None;

    var releases := ListReleases(feed, Repo(owner, repo));
    for i := 0 to |releases|
      // the body breaks or returns on the first release: no other is looked at
      invariant i == 0
    {
      var release := releases[i];
      if app.versionName == Builtin || LexLess(app.versionName, release.tagName) {
        for j := 0 to |release.assets|
          invariant UpdateInfo(latestVersion, url, sessionKey, checksum) == Classify(release, fetch, Defaults, j)
        {
          var asset := release.assets[j];
          if asset.name == KeyAssetName {
            if asset.browserDownloadUrl in fetch {
              sessionKey := Some(Trim(fetch[asset.browserDownloadUrl]));
            }
          } else if EndsWith(asset.name, PackageSuffix) {
            latestVersion := release.tagName;
            url := asset.browserDownloadUrl;
            var checksumFilename := ChecksumName(asset.name);
            var found := FindAsset(release.assets, checksumFilename);
            if found.Some? {
              var checksumAsset := release.assets[found.value];
              if checksumAsset.browserDownloadUrl in fetch {
                checksum := Some(Trim(fetch[checksumAsset.browserDownloadUrl]));
              }
            }
          }
        }
        break;
      } else {
        return None;
      }
    }
    r := Some(UpdateInfo(latestVersion, url, sessionKey, checksum));
  }
}

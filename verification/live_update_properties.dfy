/**
 What the update resolver promises, proved about its reference definition
 `Resolve` (which `GetUpdateInfo` computes) and about the asset
 classification `Classify`.
 */
module LiveUpdateProperties {
  import opened Wrappers
  import opened Strings
  import opened LiveUpdate

  // ---------------------------------------------------------------------
  // Repository resolution
  // ---------------------------------------------------------------------

  /**
   An application id is accepted as exactly the pair (owner, repo) when it is
   owner "." repo and neither piece holds a dot; empty pieces are allowed.
   */
  lemma SplitAppIdIff(appId: string, owner: string, repo: string)
    ensures SplitAppId(appId) == Some((owner, repo))
        <==> appId == owner + "." + repo && '.' !in owner && '.' !in repo
  {
    if appId == owner + "." + repo && '.' !in owner && '.' !in repo {
      assert Join([owner, repo], '.') == appId by {
        assert [owner, repo][1..] == [repo];
      }
      SplitJoin([owner, repo], '.');
    }
  }

  /**
   The releases consulted are those of the id's second piece; the owner is
   the id's first piece, except that repository "scone" always belongs to
   "Sinotrade".
   */
  lemma ResolveRepoOf(owner: string, repo: string)
    requires '.' !in owner && '.' !in repo
    ensures ResolveRepo(owner + "." + repo) == Some(Repo(if repo == "scone" then "Sinotrade" else owner, repo))
  {
    SplitAppIdIff(owner + "." + repo, owner, repo);
  }

  /** For the aliased repository the owner the client names makes no difference. */
  lemma LegacyRepoIgnoresClientOwner(owner1: string, owner2: string)
    requires '.' !in owner1 && '.' !in owner2
    ensures ResolveRepo(owner1 + ".scone") == ResolveRepo(owner2 + ".scone") == Some(Repo("Sinotrade", "scone"))
  {
    ResolveRepoOf(owner1, "scone");
    ResolveRepoOf(owner2, "scone");
    assert owner1 + "." + "scone" == owner1 + ".scone";
    assert owner2 + "." + "scone" == owner2 + ".scone";
  }

  /** An id without exactly one dot gets no answer, whatever the feed holds. */
  lemma MalformedIdGivesNone(app: AppInfos, feed: Feed, fetch: Fetch)
    requires CountOf(app.appId, '.') != 1
    ensures Resolve(app, feed, fetch) == None
  {
  }

  /** Edge cases of the id check: empty pieces pass, no dot or two dots fail. */
  lemma AppIdEdgeCases()
    ensures ResolveRepo(".x") == Some(Repo("", "x"))
    ensures ResolveRepo("x.") == Some(Repo("x", ""))
    ensures ResolveRepo("x") == None
    ensures ResolveRepo("a.b.c") == None
  {
    ResolveRepoOf("", "x");
    assert "" + "." + "x" == ".x";
    ResolveRepoOf("x", "");
    assert "x" + "." + "" == "x.";
    assert CountOf("x", '.') == 0;
    assert CountOf("a.b.c", '.') == 2 by {
      assert "a.b.c"[1..] == ".b.c";
      assert ".b.c"[1..] == "b.c";
      assert "b.c"[1..] == ".c";
      assert ".c"[1..] == "c";
      assert CountOf("c", '.') == 0;
    }
  }

  // ---------------------------------------------------------------------
  // The release feed and the first release
  // ---------------------------------------------------------------------

  /** Only the listing of the resolved repository is ever consulted. */
  lemma FeedOfResolvedRepoOnly(app: AppInfos, feed1: Feed, feed2: Feed, fetch: Fetch)
    requires ResolveRepo(app.appId).Some?
    requires ListReleases(feed1, ResolveRepo(app.appId).value) == ListReleases(feed2, ResolveRepo(app.appId).value)
    ensures Resolve(app, feed1, fetch) == Resolve(app, feed2, fetch)
  {
  }

  /** A failed or empty listing gives the defaults, not "no update". */
  lemma FeedFailureGivesDefaults(app: AppInfos, feed: Feed, fetch: Fetch)
    requires ResolveRepo(app.appId).Some?
    requires var repo := ResolveRepo(app.appId).value; repo !in feed || feed[repo] == []
    ensures Resolve(app, feed, fetch) == Some(UpdateInfo("0.0.1", FallbackUrl, None, None))
  {
  }

  /**
   A release is not an update exactly when the client does not report
   "builtin" and its version is the tag or comes after it in string order.
   */
  lemma NotNewerIff(versionName: string, tagName: string)
    ensures !IsNewer(versionName, tagName)
        <==> versionName != "builtin" && (versionName == tagName || LexLess(tagName, versionName))
  {
    LexLessTrichotomy(versionName, tagName);
    LexLessIrreflexive(versionName);
  }

  /** Versions are compared as strings, not numerically: "10.0.0" comes before "9.0.0". */
  lemma VersionOrderIsTextual()
    ensures !IsNewer("9.0.0", "10.0.0")
    ensures IsNewer("10.0.0", "9.0.0")
  {
  }

  /**
   When the first release is not newer the answer is None, whatever the
   releases after it contain.
   */
  lemma NotNewerGivesNone(app: AppInfos, feed: Feed, fetch: Fetch)
    requires ResolveRepo(app.appId).Some?
    requires var releases := ListReleases(feed, ResolveRepo(app.appId).value);
      |releases| > 0 && app.versionName != "builtin"
      && (app.versionName == releases[0].tagName || LexLess(releases[0].tagName, app.versionName))
    ensures Resolve(app, feed, fetch) == None
  {
    var releases := ListReleases(feed, ResolveRepo(app.appId).value);
    NotNewerIff(app.versionName, releases[0].tagName);
  }

  /** Two listings with the same first release give the same answer. */
  lemma OnlyFirstReleaseMatters(app: AppInfos, feed1: Feed, feed2: Feed, fetch: Fetch)
    requires ResolveRepo(app.appId).Some?
    requires var repo := ResolveRepo(app.appId).value;
      |ListReleases(feed1, repo)| > 0 && |ListReleases(feed2, repo)| > 0
      && ListReleases(feed1, repo)[0] == ListReleases(feed2, repo)[0]
    ensures Resolve(app, feed1, fetch) == Resolve(app, feed2, fetch)
  {
  }

  /**
   The answer is None exactly for a malformed id or a first release that is
   not newer; in every other case there is an answer.
   */
  lemma ResolveNoneIff(app: AppInfos, feed: Feed, fetch: Fetch)
    ensures Resolve(app, feed, fetch).None?
        <==> || CountOf(app.appId, '.') != 1
             || (var releases := ListReleases(feed, ResolveRepo(app.appId).value);
                 && |releases| > 0
                 && app.versionName != "builtin"
                 && (app.versionName == releases[0].tagName || LexLess(releases[0].tagName, app.versionName)))
  {
    if CountOf(app.appId, '.') == 1 {
      var releases := ListReleases(feed, ResolveRepo(app.appId).value);
      if |releases| > 0 {
        NotNewerIff(app.versionName, releases[0].tagName);
      }
    }
  }

  // ---------------------------------------------------------------------
  // Asset classification
  // ---------------------------------------------------------------------

  /** `key` never passes for a package: it does not end with ".zip". */
  lemma KeyIsNotPackage()
    ensures !EndsWith("key", ".zip")
  {
  }

  /** An asset named exactly `key` whose text could be fetched. */
  predicate KeyFetched(a: Asset, fetch: Fetch)
  {
    a.name == "key" && a.browserDownloadUrl in fetch
  }

  /**
   A ".zip" asset of `rel` whose checksum asset, the first asset named after
   it by `ChecksumName`, exists and could be fetched.
   */
  predicate ChecksumFetched(rel: Release, a: Asset, fetch: Fetch)
  {
    && EndsWith(a.name, ".zip")
    && FirstNamed(rel.assets, ChecksumName(a.name)).Some?
    && rel.assets[FirstNamed(rel.assets, ChecksumName(a.name)).value].browserDownloadUrl in fetch
  }

  /** The trimmed text of that checksum asset. */
  function FetchedChecksum(rel: Release, a: Asset, fetch: Fetch): string
    requires ChecksumFetched(rel, a, fetch)
  {
    Trim(fetch[rel.assets[FirstNamed(rel.assets, ChecksumName(a.name)).value].browserDownloadUrl])
  }

  /** One asset sets the version and the URL exactly when it is a ".zip" asset. */
  lemma StepPackage(rel: Release, a: Asset, fetch: Fetch, acc: UpdateInfo)
    ensures Step(rel, a, fetch, acc).version == if EndsWith(a.name, ".zip") then rel.tagName else acc.version
    ensures Step(rel, a, fetch, acc).url == if EndsWith(a.name, ".zip") then a.browserDownloadUrl else acc.url
  {
    KeyIsNotPackage();
  }

  /** One asset sets the session key exactly when it is a `key` asset whose text was fetched. */
  lemma StepSessionKey(rel: Release, a: Asset, fetch: Fetch, acc: UpdateInfo)
    ensures Step(rel, a, fetch, acc).sessionKey
         == if KeyFetched(a, fetch) then Some(Trim(fetch[a.browserDownloadUrl])) else acc.sessionKey
  {
  }

  /**
   One asset sets the checksum exactly when it is a ".zip" asset whose
   checksum asset was found and fetched.
   */
  lemma StepChecksum(rel: Release, a: Asset, fetch: Fetch, acc: UpdateInfo)
    ensures Step(rel, a, fetch, acc).checksum
         == if ChecksumFetched(rel, a, fetch) then Some(FetchedChecksum(rel, a, fetch)) else acc.checksum
  {
    KeyIsNotPackage();
  }

  /** The last ".zip" asset among the first `n` gives the version and the URL. */
  lemma {:induction false} PackageIsLastZip(rel: Release, fetch: Fetch, acc: UpdateInfo, n: nat, i: nat)
    requires i < n <= |rel.assets|
    requires EndsWith(rel.assets[i].name, ".zip")
    requires forall j :: i < j < n ==> !EndsWith(rel.assets[j].name, ".zip")
    ensures Classify(rel, fetch, acc, n).version == rel.tagName
    ensures Classify(rel, fetch, acc, n).url == rel.assets[i].browserDownloadUrl
  {
    StepPackage(rel, rel.assets[n - 1], fetch, Classify(rel, fetch, acc, n - 1));
    if n > i + 1 {
      PackageIsLastZip(rel, fetch, acc, n - 1, i);
    }
  }

  /** Without a ".zip" asset the version and the URL are left as they were. */
  lemma {:induction false} NoZipKeepsVersionAndUrl(rel: Release, fetch: Fetch, acc: UpdateInfo, n: nat)
    requires n <= |rel.assets|
    requires forall j :: 0 <= j < n ==> !EndsWith(rel.assets[j].name, ".zip")
    ensures Classify(rel, fetch, acc, n).version == acc.version
    ensures Classify(rel, fetch, acc, n).url == acc.url
  {
    if n > 0 {
      StepPackage(rel, rel.assets[n - 1], fetch, Classify(rel, fetch, acc, n - 1));
      NoZipKeepsVersionAndUrl(rel, fetch, acc, n - 1);
    }
  }

  /** The session key is the trimmed text of the last `key` asset whose fetch succeeded. */
  lemma {:induction false} SessionKeyIsLastFetchedKey(rel: Release, fetch: Fetch, acc: UpdateInfo, n: nat, i: nat)
    requires i < n <= |rel.assets|
    requires KeyFetched(rel.assets[i], fetch)
    requires forall j :: i < j < n ==> !KeyFetched(rel.assets[j], fetch)
    ensures Classify(rel, fetch, acc, n).sessionKey == Some(Trim(fetch[rel.assets[i].browserDownloadUrl]))
  {
    StepSessionKey(rel, rel.assets[n - 1], fetch, Classify(rel, fetch, acc, n - 1));
    if n > i + 1 {
      SessionKeyIsLastFetchedKey(rel, fetch, acc, n - 1, i);
    }
  }

  /** Without a successfully fetched `key` asset the session key is left as it was. */
  lemma {:induction false} NoFetchedKeyKeepsSessionKey(rel: Release, fetch: Fetch, acc: UpdateInfo, n: nat)
    requires n <= |rel.assets|
    requires forall j :: 0 <= j < n ==> !KeyFetched(rel.assets[j], fetch)
    ensures Classify(rel, fetch, acc, n).sessionKey == acc.sessionKey
  {
    if n > 0 {
      StepSessionKey(rel, rel.assets[n - 1], fetch, Classify(rel, fetch, acc, n - 1));
      NoFetchedKeyKeepsSessionKey(rel, fetch, acc, n - 1);
    }
  }

  /** The checksum comes from the last ".zip" asset whose checksum asset was found and fetched. */
  lemma {:induction false} ChecksumIsLastFetched(rel: Release, fetch: Fetch, acc: UpdateInfo, n: nat, i: nat)
    requires i < n <= |rel.assets|
    requires ChecksumFetched(rel, rel.assets[i], fetch)
    requires forall j :: i < j < n ==> !ChecksumFetched(rel, rel.assets[j], fetch)
    ensures Classify(rel, fetch, acc, n).checksum == Some(FetchedChecksum(rel, rel.assets[i], fetch))
  {
    StepChecksum(rel, rel.assets[n - 1], fetch, Classify(rel, fetch, acc, n - 1));
    if n > i + 1 {
      ChecksumIsLastFetched(rel, fetch, acc, n - 1, i);
    }
  }

  /** A missing or unreadable checksum asset leaves the checksum as it was. */
  lemma {:induction false} NoFetchedChecksumKeepsChecksum(rel: Release, fetch: Fetch, acc: UpdateInfo, n: nat)
    requires n <= |rel.assets|
    requires forall j :: 0 <= j < n ==> !ChecksumFetched(rel, rel.assets[j], fetch)
    ensures Classify(rel, fetch, acc, n).checksum == acc.checksum
  {
    if n > 0 {
      StepChecksum(rel, rel.assets[n - 1], fetch, Classify(rel, fetch, acc, n - 1));
      NoFetchedChecksumKeepsChecksum(rel, fetch, acc, n - 1);
    }
  }

  /** ".zip" does not overlap itself: its leading '.' does not recur in it. */
  lemma PackageSuffixIsPlain()
    ensures |PackageSuffix| > 0 && PackageSuffix[0] !in PackageSuffix[1..]
  {
    assert PackageSuffix[1..] == "zip";
  }

  /** For a package name with no other ".zip" in it, only the suffix changes. */
  lemma ChecksumNameOfPackage(base: string)
    requires !Contains(base, PackageSuffix)
    ensures ChecksumName(base + PackageSuffix) == base + ChecksumSuffix
  {
    PackageSuffixIsPlain();
    ReplaceAppendPattern(base, PackageSuffix, ChecksumSuffix);
    ReplaceNoMatch(base, PackageSuffix, ChecksumSuffix);
  }

  /**
   Every ".zip" in the package name is replaced, not only the suffix: at any
   occurrence the name splits into the part before it and the part after it,
   whose checksum names are formed independently.
   */
  lemma ChecksumNameReplacesEveryZip(before: string, after: string)
    ensures ChecksumName(before + PackageSuffix + after)
         == ChecksumName(before) + ChecksumSuffix + ChecksumName(after)
  {
    PackageSuffixIsPlain();
    ReplaceSplitAt(before, PackageSuffix, ChecksumSuffix, after);
  }

  /**
   The checksum need not belong to the package whose URL is reported: when
   the last ".zip" asset (at `k`) has no fetchable checksum but an earlier
   ".zip" asset (at `i`) has, the answer carries the URL of the one and the
   checksum of the other. With assets `a.zip`, `a.checksum`, `b.zip` (and
   `a.checksum` fetchable) that is `i == 0`, `k == 2`.
   */
  lemma MismatchedChecksum(rel: Release, fetch: Fetch, acc: UpdateInfo, n: nat, i: nat, k: nat)
    requires i < k < n <= |rel.assets|
    requires EndsWith(rel.assets[k].name, ".zip")
    requires forall j :: k < j < n ==> !EndsWith(rel.assets[j].name, ".zip")
    requires ChecksumFetched(rel, rel.assets[i], fetch)
    requires forall j :: i < j < n ==> !ChecksumFetched(rel, rel.assets[j], fetch)
    ensures Classify(rel, fetch, acc, n).url == rel.assets[k].browserDownloadUrl
    ensures Classify(rel, fetch, acc, n).checksum == Some(FetchedChecksum(rel, rel.assets[i], fetch))
    ensures !ChecksumFetched(rel, rel.assets[k], fetch)
  {
    PackageIsLastZip(rel, fetch, acc, n, k);
    ChecksumIsLastFetched(rel, fetch, acc, n, i);
  }

  /** URL texts agree between two fetch maps on every asset of `rel`. */
  predicate AgreeOnAssets(rel: Release, fetch1: Fetch, fetch2: Fetch)
  {
    forall j :: 0 <= j < |rel.assets| ==>
      var u := rel.assets[j].browserDownloadUrl;
      (u in fetch1 <==> u in fetch2) && (u in fetch1 ==> fetch1[u] == fetch2[u])
  }

  /** Classification fetches nothing but the release's own assets. */
  lemma {:induction false} ClassifyReadsOnlyOwnAssets(rel: Release, fetch1: Fetch, fetch2: Fetch, acc: UpdateInfo, n: nat)
    requires n <= |rel.assets|
    requires AgreeOnAssets(rel, fetch1, fetch2)
    ensures Classify(rel, fetch1, acc, n) == Classify(rel, fetch2, acc, n)
  {
    if n > 0 {
      ClassifyReadsOnlyOwnAssets(rel, fetch1, fetch2, acc, n - 1);
    }
  }

  /**
   A client on "builtin" whose first release has a ".zip" asset gets that
   release's tag and the URL of its last ".zip" asset.
   */
  lemma BuiltinGetsFirstReleasePackage(app: AppInfos, feed: Feed, fetch: Fetch, i: nat)
    requires app.versionName == "builtin" && ResolveRepo(app.appId).Some?
    requires var releases := ListReleases(feed, ResolveRepo(app.appId).value);
      && |releases| > 0 && i < |releases[0].assets|
      && EndsWith(releases[0].assets[i].name, ".zip")
      && forall j :: i < j < |releases[0].assets| ==> !EndsWith(releases[0].assets[j].name, ".zip")
    ensures Resolve(app, feed, fetch).Some?
    ensures var releases := ListReleases(feed, ResolveRepo(app.appId).value);
      && Resolve(app, feed, fetch).value.version == releases[0].tagName
      && Resolve(app, feed, fetch).value.url == releases[0].assets[i].browserDownloadUrl
  {
    var rel := ListReleases(feed, ResolveRepo(app.appId).value)[0];
    PackageIsLastZip(rel, fetch, Defaults, |rel.assets|, i);
  }

  // ---------------------------------------------------------------------
  // Worked examples
  // ---------------------------------------------------------------------

  /** A newer release with one package and nothing else. */
  lemma NewerReleaseExample()
    ensures Resolve(AppInfos("acme.widget", "1.0.0"),
                    map[Repo("acme", "widget") := [Release("2.0.0", [Asset("widget.zip", "https://x/widget.zip")])]],
                    map[])
         == Some(UpdateInfo("2.0.0", "https://x/widget.zip", None, None))
  {
    ResolveRepoOf("acme", "widget");
    assert "acme" + "." + "widget" == "acme.widget";
    var package := Asset("widget.zip", "https://x/widget.zip");
    var rel := Release("2.0.0", [package]);
    assert IsNewer("1.0.0", "2.0.0");
    assert EndsWith(package.name, ".zip") by {
      assert package.name[|package.name| - 4..] == ".zip";
    }
    NoFetchedChecksumKeepsChecksum(rel, map[], Defaults, 1);
    NoFetchedKeyKeepsSessionKey(rel, map[], Defaults, 1);
    PackageIsLastZip(rel, map[], Defaults, 1, 0);
  }

  /** The same release for a client already on it. */
  lemma SameVersionExample()
    ensures Resolve(AppInfos("acme.widget", "2.0.0"),
                    map[Repo("acme", "widget") := [Release("2.0.0", [Asset("widget.zip", "https://x/widget.zip")])]],
                    map[])
         == None
  {
    ResolveRepoOf("acme", "widget");
    assert "acme" + "." + "widget" == "acme.widget";
    LexLessIrreflexive("2.0.0");
  }

  /**
   A fetched key loses its surrounding blanks and line break: "  secret123\n"
   trims to "secret123". The three parts are parameters fixed by the
   `requires` only so that the verifier meets them as named pieces rather
   than unfolding one long literal.
   */
  lemma TrimKeyExample(pre: string, core: string, post: string)
    requires pre == "  " && core == "secret123" && post == "\n"
    ensures Trim(pre + core + post) == core
  {
    TrimPadded(pre, core, post);
  }

  /** The checksum file of "widget.zip" is "widget.checksum". */
  lemma ChecksumNameExample()
    ensures ChecksumName("widget.zip") == "widget.checksum"
  {
    NotContainsWithoutFirst("widget", ".zip");
    ChecksumNameOfPackage("widget");
    assert "widget" + ".zip" == "widget.zip";
    assert "widget" + ".checksum" == "widget.checksum";
  }

  /** A ".zip" in the middle of a name is replaced too: "a.zip-v2.zip" looks for "a.checksum-v2.checksum". */
  lemma MidNameZipExample()
    ensures ChecksumName("a.zip-v2.zip") == "a.checksum-v2.checksum"
  {
    NotContainsWithoutFirst("a", PackageSuffix);
    NotContainsWithoutFirst("-v2", PackageSuffix);
    ReplaceNoMatch("a", PackageSuffix, ChecksumSuffix);
    ChecksumNameOfPackage("-v2");
    ChecksumNameReplacesEveryZip("a", "-v2" + PackageSuffix);
    assert "a" + PackageSuffix + ("-v2" + PackageSuffix) == "a.zip-v2.zip";
    assert "a" + ChecksumSuffix + ("-v2" + ChecksumSuffix) == "a.checksum-v2.checksum";
  }

  /**
   The text of a `key` asset becomes the session key, trimmed. The release
   and the fetch map are parameters fixed by the `requires` only to keep the
   literals out of the verifier's unfolding; the lemma is a single scenario.
   */
  lemma SessionKeyExample(rel: Release, fetch: Fetch)
    requires rel == Release("2.0.0", [Asset("key", "https://x/key")])
    requires fetch == map["https://x/key" := "  secret123\n"]
    ensures Classify(rel, fetch, Defaults, 1) == Defaults.(sessionKey := Some("secret123"))
  {
    assert fetch["https://x/key"] == "  " + "secret123" + "\n";
    TrimKeyExample("  ", "secret123", "\n");
  }
}

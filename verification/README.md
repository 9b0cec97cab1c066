# CapgoServer update resolver, modelled in Dafny

CapgoServer answers a live-update client's question: is there a newer release
of my app, and if so, where is the package, what is its session key and what
is its checksum? The answer comes from `get_update_info`. That function:

- splits the client's `app_id` into an owner and a repository; the repository
  `scone` always belongs to `Sinotrade`;
- lists the repository's releases;
- looks only at the first release. If the client runs `builtin`, or its
  version sorts before the release tag as a string, the release's assets are
  classified. Otherwise the answer is "no update";
- during classification, an asset named `key` supplies the trimmed session
  key. Each asset ending in `.zip` supplies the version and the URL. A `.zip`
  asset also looks up its checksum asset, named with every `.zip` replaced by
  `.checksum`, and supplies that file's trimmed text. The last `.zip` gives
  the version and the URL; the last key and the last checksum that could be
  fetched are kept;
- starts from fixed defaults (version `0.0.1` and a fallback URL), which
  remain when nothing replaces them. A failed or empty release listing
  therefore still gets an answer.

The project has four modules:

- `Wrappers` (`wrappers.dfy`): Rust's `Option`.
- `Strings` (`strings.dfy`): the Rust string operations the resolver relies
  on, with their properties. These are `split('.')` (empty pieces kept),
  `ends_with`, `replace` (left to right, non-overlapping), `trim` (the Unicode
  White_Space set of `char::is_whitespace`) and `String`'s `<` (lexicographic
  by scalar value, the same order as comparing the UTF-8 bytes).
- `LiveUpdate` (`live_update.dfy`): the data model and the resolver. The
  release listing and the asset downloads are inputs:
  - `Feed` maps an (owner, repository) pair to its releases in feed order. A
    missing entry is a failed listing, which reads as no releases
    (`ListReleases`).
  - `Fetch` maps a download URL to the text behind it. A missing entry is a
    failed download.
  - `Resolve` is the reference definition of the answer. It is built from
    `ResolveRepo`, `IsNewer`, `ChecksumName`, `FirstNamed`, the one-asset
    `Step` and the fold `Classify`.
  - `GetUpdateInfo` is the imperative function itself: the split, the
    mutable defaults, the release loop that breaks or returns on its first
    iteration, and the asset loop. It is proved to compute `Resolve`.
  - The datatype constructor `UpdateInfo` plays the part of
    `UpdateInfo::new`.
- `LiveUpdateProperties` (`live_update_properties.dfy`): what the resolver
  promises, proved about `Resolve` and `Classify`, together with the worked
  scenarios.

Two behaviours of the code worth knowing:

- An id with an empty piece, such as `.x` or `x.`, is accepted, because
  Rust's `split` keeps empty pieces.
- The checksum file name replaces every `.zip` in the package name, not only
  the suffix: `a.zip-v2.zip` looks for `a.checksum-v2.checksum`.
- A failed download keeps what an earlier asset supplied. The session key
  comes from the last `key` whose download succeeded, and the checksum from
  the last `.zip` whose checksum asset was found and downloaded. The checksum
  can therefore belong to a different package than the URL: with assets
  `a.zip`, `a.checksum`, `b.zip` and no `b.checksum`, the answer carries the
  URL of `b.zip` and the text of `a.checksum`.

## Model

| member | source | states |
|---|---|---|
| Strings.Split | src/api/live_update.rs:142 | `split('.')` yields one more piece than there are separators, no piece holds the separator, and joining the pieces gives the text back |
| Strings.SplitNoSep | src/api/live_update.rs:142 | a text without the separator splits into itself alone |
| Strings.SplitAfterSep | src/api/live_update.rs:142 | the piece before the first separator comes first, followed by the pieces of the rest |
| Strings.SplitJoin | src/api/live_update.rs:142 | splitting the join of separator-free pieces gives those pieces back |
| Strings.NotContainsWithoutFirst | src/api/live_update.rs:182 | a text lacking the pattern's first character does not contain the pattern |
| Strings.ReplaceNoMatch | src/api/live_update.rs:182 | `replace` changes nothing when the pattern does not occur |
| Strings.StartsWithBeforePattern | src/api/live_update.rs:182 | for a pattern whose first character does not recur, a match at the start of `s + pattern` lies within `s` |
| Strings.ReplaceAppendPattern | src/api/live_update.rs:182 | an occurrence appended at the end is replaced on its own: `replace(s + p) == replace(s) + to` |
| Strings.StartsWithExtended | src/api/live_update.rs:182 | a text that starts with the pattern still does after anything is appended, and conversely |
| Strings.ReplaceSplitAt | src/api/live_update.rs:182 | for a pattern that cannot overlap itself, an occurrence anywhere in the text is replaced on its own and the texts before and after it are rewritten independently |
| Strings.TrimStart | src/api/live_update.rs:176 | the result is a suffix, everything removed is whitespace, and the result does not begin with whitespace |
| Strings.TrimEnd | src/api/live_update.rs:176 | the result is a prefix, everything removed is whitespace, and the result does not end with whitespace |
| Strings.Trim | src/api/live_update.rs:176 | the result neither begins nor ends with whitespace, is empty exactly when the text is all whitespace, and is no longer than the text |
| Strings.TrimIsInfix | src/api/live_update.rs:176 | what `trim` keeps occurs in the original text |
| Strings.TrimStartSkips | src/api/live_update.rs:176 | leading whitespace before a non-blank start is exactly what `trim_start` removes |
| Strings.TrimEndSkips | src/api/live_update.rs:176 | trailing whitespace after a non-blank end is exactly what `trim_end` removes |
| Strings.TrimPadded | src/api/live_update.rs:187 | `trim` of whitespace + trimmed text + whitespace gives the trimmed text |
| Strings.TrimOfTrimmed | src/api/live_update.rs:187 | a text that neither begins nor ends with whitespace is its own trim |
| Strings.TrimIdempotent | src/api/live_update.rs:187 | trimming twice is trimming once |
| Strings.LexLessIrreflexive | src/api/live_update.rs:171 | no version is less than itself |
| Strings.LexLessTransitive | src/api/live_update.rs:171 | the version order is transitive |
| Strings.LexLessTrichotomy | src/api/live_update.rs:171 | any two versions are equal or ordered one way, never both ways |
| Strings.EndsWith | src/api/live_update.rs:179 | `ends_with`: the text is at least as long as the suffix and its last characters are the suffix |
| Strings.Replace | src/api/live_update.rs:182 | `replace` with a non-empty pattern: scanning left to right, a match is replaced by `to` and scanning resumes after it; otherwise one character is kept |
| Strings.IsWhitespace | src/api/live_update.rs:176 | `char::is_whitespace`: the 25 characters with the Unicode White_Space property |
| Strings.LexLess | src/api/live_update.rs:171 | `String`'s `<`: the first differing character decides, and a proper prefix comes first |
| LiveUpdate.ResolveRepo | src/api/live_update.rs:142-153 | no repository for a malformed id; otherwise the id's second piece, owned by its first piece, or by "Sinotrade" when the repository is "scone" |
| LiveUpdate.ListReleases | src/api/live_update.rs:163 | the releases of the repository in feed order, or none when the listing failed |
| LiveUpdate.IsNewer | src/api/live_update.rs:171 | a release is an update when the client runs "builtin" or its version sorts before the tag |
| LiveUpdate.ChecksumName | src/api/live_update.rs:182 | the checksum file name is the package name with every ".zip" replaced by ".checksum" |
| LiveUpdate.Step | src/api/live_update.rs:173-193 | one asset: "key" whose download succeeds sets the trimmed session key; otherwise a ".zip" sets version and URL and, when its first same-named checksum asset downloads, the trimmed checksum; any other asset changes nothing |
| LiveUpdate.Classify | src/api/live_update.rs:172-194 | the answer after the first `n` assets, in order, starting from the given one |
| LiveUpdate.Resolve | src/api/live_update.rs:135-209 | None for a malformed id; the defaults for a failed or empty listing; the classified first release when it is newer; None otherwise |
| LiveUpdate.SplitAppId | src/api/live_update.rs:142-152 | the id is accepted exactly when it holds one '.'; then it is owner "." repo with neither piece holding a dot |
| LiveUpdate.FirstNamed | src/api/live_update.rs:183 | the index found is the first asset with that exact name, and None means no asset has it |
| LiveUpdate.FindAsset | src/api/live_update.rs:183 | the linear search returns the first asset with that exact name, or None when there is none |
| LiveUpdate.GetUpdateInfo | src/api/live_update.rs:135-209 | the imperative resolver (split, defaults, release loop with break and early return, asset loop) computes exactly `Resolve` |
| LiveUpdateProperties.SplitAppIdIff | src/api/live_update.rs:142-152 | the id gives the pair (owner, repo) if and only if it is owner "." repo and neither piece holds a dot |
| LiveUpdateProperties.ResolveRepoOf | src/api/live_update.rs:152-153 | the repository consulted is the id's second piece; its owner is the first piece, or "Sinotrade" when the repository is "scone" |
| LiveUpdateProperties.LegacyRepoIgnoresClientOwner | src/api/live_update.rs:153 | for repository "scone", every client owner resolves to Sinotrade/scone |
| LiveUpdateProperties.MalformedIdGivesNone | src/api/live_update.rs:206-208 | an id without exactly one '.' gets None, whatever the feed holds |
| LiveUpdateProperties.AppIdEdgeCases | src/api/live_update.rs:142-152 | ".x" and "x." are accepted with an empty piece; "x" and "a.b.c" are rejected |
| LiveUpdateProperties.FeedOfResolvedRepoOnly | src/api/live_update.rs:163 | only the listing of the resolved (owner, repository) pair affects the answer |
| LiveUpdateProperties.FeedFailureGivesDefaults | src/api/live_update.rs:156-163 | a failed or empty listing gives the defaults: version 0.0.1, the fallback URL, no key, no checksum |
| LiveUpdateProperties.NotNewerIff | src/api/live_update.rs:171 | a release is not an update exactly when the client is not on "builtin" and its version equals the tag or sorts after it |
| LiveUpdateProperties.VersionOrderIsTextual | src/api/live_update.rs:171 | versions compare as strings: "10.0.0" is not newer than "9.0.0" for a client on "9.0.0" |
| LiveUpdateProperties.NotNewerGivesNone | src/api/live_update.rs:164-198 | when the first release is not newer the answer is None, whatever follows it |
| LiveUpdateProperties.OnlyFirstReleaseMatters | src/api/live_update.rs:164-198 | two listings with the same first release give the same answer |
| LiveUpdateProperties.ResolveNoneIff | src/api/live_update.rs:135-209 | the answer is None exactly for a malformed id or a first release that is not newer |
| LiveUpdateProperties.KeyIsNotPackage | src/api/live_update.rs:173-179 | an asset named "key" is never taken for a package |
| LiveUpdateProperties.StepPackage | src/api/live_update.rs:179-181 | one asset sets the version to the tag and the URL to its own exactly when its name ends with ".zip" |
| LiveUpdateProperties.StepSessionKey | src/api/live_update.rs:173-178 | one asset sets the session key to its trimmed text exactly when it is named "key" and its download succeeds |
| LiveUpdateProperties.StepChecksum | src/api/live_update.rs:182-192 | one asset sets the checksum exactly when it is a ".zip" whose checksum asset is found and downloaded; it is set to that asset's trimmed text |
| LiveUpdateProperties.PackageIsLastZip | src/api/live_update.rs:172-181 | the version and URL come from the last ".zip" asset |
| LiveUpdateProperties.NoZipKeepsVersionAndUrl | src/api/live_update.rs:156-159 | without a ".zip" asset the version and URL keep their defaults |
| LiveUpdateProperties.SessionKeyIsLastFetchedKey | src/api/live_update.rs:172-178 | the session key is the trimmed text of the last "key" asset whose download succeeded |
| LiveUpdateProperties.NoFetchedKeyKeepsSessionKey | src/api/live_update.rs:173-178 | without a downloaded "key" asset the session key stays as it was |
| LiveUpdateProperties.ChecksumIsLastFetched | src/api/live_update.rs:179-192 | the checksum comes from the last ".zip" asset whose checksum asset was found and downloaded |
| LiveUpdateProperties.NoFetchedChecksumKeepsChecksum | src/api/live_update.rs:182-192 | a missing or unreadable checksum asset leaves the checksum as it was |
| LiveUpdateProperties.PackageSuffixIsPlain | src/api/live_update.rs:182 | ".zip" cannot overlap itself |
| LiveUpdateProperties.ChecksumNameOfPackage | src/api/live_update.rs:182 | the checksum file of `base.zip`, with no other ".zip" in `base`, is `base.checksum` |
| LiveUpdateProperties.ChecksumNameReplacesEveryZip | src/api/live_update.rs:182 | every ".zip" in a package name is replaced, not only the suffix: at any occurrence, the checksum name is that of the part before it, then ".checksum", then that of the part after it |
| LiveUpdateProperties.MidNameZipExample | src/api/live_update.rs:182 | "a.zip-v2.zip" looks for "a.checksum-v2.checksum" |
| LiveUpdateProperties.MismatchedChecksum | src/api/live_update.rs:179-192 | when the last `.zip` has no fetchable checksum but an earlier `.zip` does, the answer pairs the last package's URL with the earlier package's checksum |
| LiveUpdateProperties.ClassifyReadsOnlyOwnAssets | src/api/live_update.rs:172-194 | classification depends on the downloads of the release's own assets only |
| LiveUpdateProperties.BuiltinGetsFirstReleasePackage | src/api/live_update.rs:171-181 | a "builtin" client whose first release has a ".zip" asset gets that release's tag and the URL of its last ".zip" asset |
| LiveUpdateProperties.NewerReleaseExample | src/api/live_update.rs:135-209 | "acme.widget" on 1.0.0 with release 2.0.0 holding only widget.zip gets 2.0.0, that URL, no key and no checksum |
| LiveUpdateProperties.SameVersionExample | src/api/live_update.rs:171-197 | the same request from a client already on 2.0.0 gets None |
| LiveUpdateProperties.TrimKeyExample | src/api/live_update.rs:176 | the key text "  secret123\n" trims to "secret123" |
| LiveUpdateProperties.ChecksumNameExample | src/api/live_update.rs:182 | the checksum file of "widget.zip" is "widget.checksum" |
| LiveUpdateProperties.SessionKeyExample | src/api/live_update.rs:173-178 | a release whose "key" asset holds "  secret123\n" gives session key "secret123" and leaves everything else at its default |

## Left out

- The HTTP calls `list_releases` and `download_and_read_asset` (src/api/live_update.rs:68-82) are not modelled as I/O. Their results are the `Feed` and `Fetch` inputs. Timeouts, HTTP status codes and the decoding of response bodies to text are not modelled: a download "succeeds" exactly when its URL is in `Fetch`.
- A listing that decodes but is empty and a listing that fails both read as no releases, as in the source. The resolver does not tell the two apart (the feed does: a missing entry is a failed listing, an empty one an empty listing).
- The `async` execution is not modelled. The fetches happen one after another in the source, and the model reads them as a pure map.
- Logging (`info!`, `debug!`, `error!`) is not modelled; it does not affect the answer.
- Not part of this model: the HTTP routing layer (src/main.rs, the poem endpoint and its 404 response for a None answer), the statistics endpoint (src/api/stats.rs) a second copy of the release listing (src/list_release.rs) and a separate two-field `UpdateInfo` with an unused constructor (src/update_info.rs).
- Fields the resolver reads only for logging, or not at all, are dropped from the datatypes: the platform and device id of `AppInfos` and the release name are only logged; the other `AppInfos` fields, release dates and authors, and asset sizes and types are not read.
- Strings.Replace: only non-empty patterns are modelled. Rust's behaviour for an empty pattern (inserting the replacement before, between and after the characters, so that `"ab"` becomes `"xaxbx"`) is not, because the resolver only ever replaces ".zip".
- Whitespace for `trim` is the White_Space set written out over Unicode scalar values. Decoding the downloaded bytes to text is not modelled.

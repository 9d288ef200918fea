# Release reconciliation for an AltStore-style app catalog

A model of the reconcile-and-merge logic of `githubScrape.py`. The script loads an app catalog
(`myApps`, a list of app entries keyed by bundle identifier) and a list of tracked GitHub
repositories (`scraping`). For each repository it first looks up the catalog entry with the
repository's bundle identifier. It then turns every release of the repository into a version
record, provided the release has an asset whose download URL ends in `.ipa`. Last, it either
appends the records whose version string is new to the existing entry, or appends a whole new
entry to the catalog.

Modules:

- `Wrappers` (`wrappers.dfy`): `Option`, used for JSON values that may be missing or `null`.
- `Releases` (`releases.dfy`): assets, releases and version records. Tag normalisation
  (`RemoveV`), the first-`.ipa` asset scan (`PickIpaAsset`, specified by `FirstIpaIndex`), the
  record one release yields (`ToVersion`), and the release loop that builds `new_versions`
  (`CollectVersions`, specified by `NormalizeAll`).
- `Catalog` (`catalog.dfy`): app entries, `find_app` (`FindApp`), `version_exists`
  (`VersionExists`), and the merge loop over an entry's versions (`MergeVersions`, specified by
  `Merged`).
- `Scrape` (`scrape.dfy`): one driver iteration (`Step`) and the whole loop (`RunAll`) as
  functions on the catalog. The class `Scraper` holds `myApps` as a field; its methods
  `ProcessRepo` and `Run` update that field and are proved equal to `Step` and `RunAll`. The
  lemmas beside them state what the source promises: the catalog only grows and bundle
  identifiers stay unique. They also state a consequence of the merge: running the loop again
  over the catalog it produced, with unchanged remote data, adds nothing.

The network results are inputs. For each repository a `Remote` value carries the release
listing, the owner login and description of the repository, and the README text, which is
treated as an opaque string. The catalog is passed in when a `Scraper` is constructed and is
read back from its `apps` field.

Four behaviours of the script are easy to misread:

- The version string is the tag with every lower-case `'v'` removed (`str.replace`), not just a
  single leading `v`. `RemoveVInner` shows the difference: `"de-v3"` becomes `"de-3"`.
- A repository without an entry gets a new entry even when no release yields a record; its
  `versions` list is then empty.
- A new entry takes `new_versions` as it is, without the dedup check (line 90). Releases tagged
  `"v1.0"` and `"1.0"` both normalise to `"1.0"`, so the new entry then holds two records with
  that version string (`NewEntryKeepsDuplicates`, with `CollidingTags` as the witness). Version
  strings stay unique only in entries that already existed (`StepKeepsVersionsUnique`).
- There is one dedup key: the version string alone. There is no draft or prerelease filter, no
  keyword or platform filter, no pagination, no release cache and no sorting of the catalog.

## Model

| member | source | states |
|---|---|---|
| `Releases.RemoveV` | githubScrape.py:33 | the version string contains no `'v'` and is no longer than the tag |
| `Releases.RemoveVAppend` | githubScrape.py:33 | the removal works character by character, so the other characters keep their order |
| `Releases.RemoveVIdentity` | githubScrape.py:33 | a tag without `'v'` is unchanged, so normalising twice is normalising once |
| `Releases.RemoveVLeading` | githubScrape.py:33 | `"v1.0"` becomes `"1.0"` and `"2.3.1"` is kept |
| `Releases.RemoveVInner` | githubScrape.py:33 | a `'v'` inside the tag is removed too, not only a leading one |
| `Releases.FirstIpaIndex` | githubScrape.py:40-44 | the position of the first asset whose URL ends in `.ipa`; none exactly when no asset's URL does |
| `Releases.PickIpaAsset` | githubScrape.py:37-44 | the loop with `break` returns the URL and size of the first `.ipa` asset, or nothing for both when there is none |
| `Releases.ToVersion` | githubScrape.py:32-55 | a release yields a record exactly when some asset URL ends in `.ipa`, and that record's URL ends in `.ipa` and its version has no `'v'`; `ReleaseYield` gives the field-by-field content |
| `Releases.ReleaseYield` | githubScrape.py:32-55 | a release yields a record exactly when some asset URL ends in `.ipa`; URL and size then come from the first such asset, date and changelog are copied unchanged, and the version is the tag with every `'v'` removed |
| `Releases.NormalizeAll` | githubScrape.py:30-55 | `new_versions` is no longer than the release list |
| `Releases.YieldingMatches` | githubScrape.py:30-55 | the k-th record of `new_versions` is the record of the k-th release that yields one |
| `Releases.YieldingAscending` | githubScrape.py:30-55 | the releases behind `new_versions` appear in release order |
| `Releases.YieldingComplete` | githubScrape.py:46-49 | every release that yields a record is represented, and no other |
| `Releases.NormalizeAllSelects` | githubScrape.py:30-55 | together: `new_versions` is the records of the yielding releases, one each, in release order |
| `Releases.CollectVersions` | githubScrape.py:30-55 | the release loop builds exactly `NormalizeAll` of the release list |
| `Catalog.FindApp` | githubScrape.py:8-13 | the first entry whose bundle identifier equals `bundleID`; none exactly when no entry has it |
| `Catalog.VersionExists` | githubScrape.py:15-16 | true exactly when some record has the given version string |
| `Catalog.Merged` | githubScrape.py:59-68 | the old versions list stays a prefix, and at most one record is added per incoming record |
| `Catalog.MergedFromIncoming` | githubScrape.py:63-65 | every appended record is one of `new_versions` |
| `Catalog.MergedCovers` | githubScrape.py:63-68 | afterwards every record of `new_versions` has its version string present in the entry |
| `Catalog.MergedFresh` | githubScrape.py:63-66 | an appended record's version string differs from every earlier record, old or appended in the same batch |
| `Catalog.MergedKeepsUnique` | githubScrape.py:63-66 | version strings that were unique stay unique |
| `Catalog.MergedNoop` | githubScrape.py:63-66 | when every incoming version string is already present, the list is unchanged |
| `Catalog.MergedIdempotent` | githubScrape.py:63-66 | merging the same `new_versions` a second time changes nothing |
| `Catalog.MergeVersions` | githubScrape.py:59-68 | the loop produces `Merged`, and `added` is the number of records appended |
| `Scrape.NewEntry` | githubScrape.py:83-91 | the new entry is found by its bundle identifier; `StepCreatesNew` states each of its fields |
| `Scrape.Step` | githubScrape.py:19-94 | one iteration adds at most one entry and reports a new entry exactly when `find_app` found none; `StepUpdatesExisting` and `StepCreatesNew` state the two branches |
| `Scrape.RunAll` | githubScrape.py:18-94 | the driver loop reports one outcome per tracked repository |
| `Scrape.FindAppStable` | githubScrape.py:8-13 | once an entry is found, appending entries or extending versions lists does not change which entry is found |
| `Scrape.CoversStable` | githubScrape.py:18-94 | a catalog that covers a repository still covers it after it grows |
| `Scrape.StepUpdatesExisting` | githubScrape.py:57-75 | an existing entry: same length, other entries untouched, only `versions` changes, the old list is a prefix, every new version string is present, and the count is the number appended |
| `Scrape.StepKeepsVersionsUnique` | githubScrape.py:63-66 | an existing entry with unique version strings keeps them unique |
| `Scrape.StepCreatesNew` | githubScrape.py:83-93 | no entry: exactly one entry is appended at the end, with `bundleID`, the repository name, the owner login, the description as subtitle, the README text, the icon URL (`""` when the key is missing) and the whole `new_versions` list, even when empty; the others are untouched |
| `Scrape.NewEntryKeepsDuplicates` | githubScrape.py:83-90 | a new entry takes `new_versions` without the dedup check: two yielding releases whose versions agree give it two records with the same version string |
| `Scrape.CollidingTags` | githubScrape.py:33-44 | releases tagged `"v1.0"` and `"1.0"` with an `.ipa` asset both yield a record with version `"1.0"` |
| `Scrape.StepGrows` | githubScrape.py:57-93 | a step removes no entry, changes no field but `versions`, extends every versions list it changes, and leaves every entry other than the one `find_app` found untouched |
| `Scrape.StepKeepsIdsUnique` | githubScrape.py:83-93 | bundle identifiers unique before a step are unique after it |
| `Scrape.StepCovers` | githubScrape.py:57-93 | after a step the catalog holds every version string that step's releases yield |
| `Scrape.StepOnCovered` | githubScrape.py:57-75 | a step on a catalog that already holds all of them changes nothing and reports 0 added |
| `Scrape.StepIdempotent` | githubScrape.py:57-93 | repeating a step with the same remote data changes nothing and reports 0 added |
| `Scrape.RunGrows` | githubScrape.py:18-94 | a whole run removes no entry and only extends versions lists |
| `Scrape.RunKeepsIdsUnique` | githubScrape.py:18-94 | a whole run keeps bundle identifiers unique |
| `Scrape.RunCovers` | githubScrape.py:18-94 | after a run the catalog holds every version string of every tracked repository |
| `Scrape.RunOnCovered` | githubScrape.py:18-94 | a run over repositories already covered changes nothing and reports 0 added for each |
| `Scrape.RunIdempotent` | githubScrape.py:18-94 | running the loop again over the catalog it produced, with unchanged remote data, leaves that catalog as it is and reports 0 added for every repository |
| `Scrape.Scraper.constructor` | githubScrape.py:5 | the catalog starts as the loaded list |
| `Scrape.Scraper.ProcessRepo` | githubScrape.py:19-94 | one iteration updates `myApps` to `Step` of the old catalog and returns its outcome |
| `Scrape.Scraper.Run` | githubScrape.py:18-94 | the loop over `scraping` updates `myApps` to `RunAll` of the old catalog and returns all outcomes |

## Left out

- HTTP requests for the release list, the repository metadata and the README (lines 26-28, 78-81). These are network I/O; their results are the fields of `Remote`.
- Loading and saving the JSON files (lines 5-6, 97). This is file I/O; the catalog and the tracked repositories are in-memory inputs, and the catalog is read back from `Scraper.apps`.
- The progress messages (lines 71-73, 94). These are console output; what they report is the returned `Outcome`.
- Crashes on malformed input are not modelled. Examples: a `KeyError` for a missing `github`, `bundleID` or `name` key or a missing owner login; an `AttributeError` for a `null` tag or download URL; a non-list release response. The model assumes every such value is present and has the right type.
- An existing entry without a `versions` key is modelled as one with an empty list. The script then writes the key back, and the model cannot tell the two apart.
- Records read from the catalog file are assumed to have a `version` string. A record without one would never match in `version_exists`; the model has no such record.
- `find_app` returns a reference to the entry, and the script updates the entry through it. The model returns the entry's position and replaces the entry at that position. This is the same result, because the loaded list holds each entry once.
- `Scrape.RunIdempotent` is about the loop run again over its own output catalog. The script reads `my-apps.json` and writes `altstore-repo.json` (lines 5, 97), so a second run of the script starts again from the unchanged input and makes the same additions. The lemma describes a repeated run only when the output file is copied over the input, which the script itself never does.
- The `github` field of a tracked repository is only used to build request URLs, so no modelled operation reads it.

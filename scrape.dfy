/** The driver: one step per entry of `scraping.json`, folding into `myApps`. */
module Scrape {
  import opened Wrappers
  import opened Releases
  import opened Catalog

  /** One entry of `scraping.json`. For `iconURL` the outer `None` is a missing key and
      `Some(None)` a key whose value is `null`. */
  datatype TrackedRepo = TrackedRepo(github: string, bundleID: string, name: string, iconURL: Option<Option<string>>)

  /** What the network returns for one repository: the release listing, the repository's
      owner login and description (`None` when missing or `null`), and the README text. */
  datatype Remote = Remote(releases: seq<Release>, ownerLogin: string, description: Option<string>, readme: string)

  /** One driver iteration's input. */
  datatype RepoRun = RepoRun(info: TrackedRepo, remote: Remote)

  /** What one iteration reports: the number of versions added to an existing entry, or a new entry. */
  datatype Outcome = Updated(added: nat) | AddedNew

  /** The entry created for a repository that is not yet in the catalog. */
  function NewEntry(info: TrackedRepo, remote: Remote, versions: seq<VersionRecord>): (e: AppEntry)
    ensures FindApp([e], info.bundleID) == Some(0)
  {
    AppEntry(info.name, Some(info.bundleID), remote.ownerLogin, remote.description,
             remote.readme, info.iconURL.GetOr(Some("")), versions)
  }

  /** One iteration of the driver loop: the catalog afterwards and what it reports. */
  function Step(apps: seq<AppEntry>, job: RepoRun): (r: (seq<AppEntry>, Outcome))
    ensures |apps| <= |r.0| <= |apps| + 1
    ensures r.1 == AddedNew <==> FindApp(apps, job.info.bundleID).None?
  {
    var newVersions := NormalizeAll(job.remote.releases);
    match FindApp(apps, job.info.bundleID)
    case Some(i) =>
      var merged := Merged(apps[i].versions, newVersions);
      (apps[i := apps[i].(versions := merged)], Updated(|merged| - |apps[i].versions|))
    case None =>
      (apps + [NewEntry(job.info, job.remote, newVersions)], AddedNew)
  }

  /** The step on a catalog that has the entry at `i`, in terms of the merge's result. */
  lemma {:induction false} StepWhenFound(apps: seq<AppEntry>, job: RepoRun, i: nat,
                                         merged: seq<VersionRecord>, added: nat)
    requires FindApp(apps, job.info.bundleID) == Some(i)
    requires merged == Merged(apps[i].versions, NormalizeAll(job.remote.releases))
    requires added == |merged| - |apps[i].versions|
    ensures Step(apps, job) == (apps[i := apps[i].(versions := merged)], Updated(added))
  {
    var r := Step(apps, job);
    assert r.0 == apps[i := apps[i].(versions := merged)];
    assert r.1 == Updated(added);
  }

  /** The step on a catalog without the entry. */
  lemma {:induction false} StepWhenMissing(apps: seq<AppEntry>, job: RepoRun, newVersions: seq<VersionRecord>)
    requires FindApp(apps, job.info.bundleID).None? && newVersions == NormalizeAll(job.remote.releases)
    ensures Step(apps, job) == (apps + [NewEntry(job.info, job.remote, newVersions)], AddedNew)
  {
  }

  /** The whole driver loop over `scraping`: the final catalog and one outcome per repository. */
  function RunAll(apps: seq<AppEntry>, jobs: seq<RepoRun>): (r: (seq<AppEntry>, seq<Outcome>))
    ensures |r.1| == |jobs|
    decreases |jobs|
  {
    if jobs == [] then (apps, [])
    else
      var (next, outcome) := Step(apps, jobs[0]);
      var rest := RunAll(next, jobs[1..]);
      (rest.0, [outcome] + rest.1)
  }

  /** The first step of a run, stated through the catalog and outcome it produced. */
  lemma {:induction false} RunAllUnfold(apps: seq<AppEntry>, jobs: seq<RepoRun>, next: seq<AppEntry>, outcome: Outcome)
    requires jobs != [] && Step(apps, jobs[0]).0 == next && Step(apps, jobs[0]).1 == outcome
    ensures RunAll(apps, jobs).0 == RunAll(next, jobs[1..]).0
    ensures RunAll(apps, jobs).1 == [outcome] + RunAll(next, jobs[1..]).1
  {
  }

  /** One turn of the driver loop keeps the remaining run's catalog equal to the whole run's. */
  lemma {:induction false} RunAllAdvanceCatalog(before: seq<AppEntry>, rest: seq<RepoRun>, after: seq<AppEntry>,
                                                goal: seq<AppEntry>)
    requires rest != [] && Step(before, rest[0]).0 == after
    requires RunAll(before, rest).0 == goal
    ensures RunAll(after, rest[1..]).0 == goal
  {
    RunAllUnfold(before, rest, after, Step(before, rest[0]).1);
  }

  /** One turn of the driver loop moves one outcome from the remaining run to those recorded. */
  lemma {:induction false} RunAllAdvanceOutcomes(before: seq<AppEntry>, rest: seq<RepoRun>, after: seq<AppEntry>,
                                                 outcome: Outcome, done: seq<Outcome>, goal: seq<Outcome>)
    requires rest != [] && Step(before, rest[0]).0 == after && Step(before, rest[0]).1 == outcome
    requires done + RunAll(before, rest).1 == goal
    ensures (done + [outcome]) + RunAll(after, rest[1..]).1 == goal
  {
    RunAllUnfold(before, rest, after, outcome);
    ConcatShift(done, outcome, RunAll(after, rest[1..]).1);
  }

  lemma ConcatShift<T>(front: seq<T>, x: T, back: seq<T>)
    ensures front + ([x] + back) == (front + [x]) + back
  {
  }

  /** The catalog only grows: no entry is removed or moved, only `versions` changes, and
      each old versions list stays a prefix of the new one. */
  ghost predicate Grows(before: seq<AppEntry>, after: seq<AppEntry>) {
    |before| <= |after| &&
    forall k :: 0 <= k < |before| ==>
      after[k].(versions := before[k].versions) == before[k] && before[k].versions <= after[k].versions
  }

  /** The catalog already holds every version string the repository's releases yield. */
  ghost predicate Covers(apps: seq<AppEntry>, job: RepoRun) {
    var found := FindApp(apps, job.info.bundleID);
    found.Some? &&
    forall v :: v in NormalizeAll(job.remote.releases) ==> VersionExists(apps[found.value].versions, v.version)
  }

  /** Growth composes over successive steps. */
  lemma {:induction false} GrowsTransitive(a: seq<AppEntry>, b: seq<AppEntry>, c: seq<AppEntry>)
    requires Grows(a, b) && Grows(b, c)
    ensures Grows(a, c)
  {
    forall k | 0 <= k < |a|
      ensures c[k].(versions := a[k].versions) == a[k] && a[k].versions <= c[k].versions
    {
      assert c[k].(versions := b[k].versions) == b[k];
      assert b[k].(versions := a[k].versions) == a[k];
    }
  }

  /** A lookup that succeeds keeps its answer while the catalog grows. */
  lemma {:induction false} FindAppStable(a: seq<AppEntry>, b: seq<AppEntry>, bundleID: string)
    requires Grows(a, b) && FindApp(a, bundleID).Some?
    ensures FindApp(b, bundleID) == FindApp(a, bundleID)
  {
    var i := FindApp(a, bundleID).value;
    assert forall k :: 0 <= k < |a| ==> b[k].bundleIdentifier == b[k].(versions := a[k].versions).bundleIdentifier;
    assert b[i].bundleIdentifier == Some(bundleID);
  }

  /** Coverage survives growth: found entries stay put and versions lists only extend. */
  lemma {:induction false} CoversStable(a: seq<AppEntry>, b: seq<AppEntry>, job: RepoRun)
    requires Grows(a, b) && Covers(a, job)
    ensures Covers(b, job)
  {
    FindAppStable(a, b, job.info.bundleID);
    var i := FindApp(a, job.info.bundleID).value;
    assert a[i].versions <= b[i].versions;
  }

  /** An existing entry: only its versions change; the old list is a prefix of the new one,
      every new record's version string is then present, the count is the number appended,
      and every other entry is untouched. */
  lemma {:induction false} StepUpdatesExisting(apps: seq<AppEntry>, job: RepoRun)
    requires FindApp(apps, job.info.bundleID).Some?
    ensures var i := FindApp(apps, job.info.bundleID).value;
      var (after, outcome) := Step(apps, job);
      |after| == |apps| &&
      (forall k :: 0 <= k < |apps| && k != i ==> after[k] == apps[k]) &&
      after[i].(versions := apps[i].versions) == apps[i] &&
      apps[i].versions <= after[i].versions &&
      (forall v :: v in NormalizeAll(job.remote.releases) ==> VersionExists(after[i].versions, v.version)) &&
      outcome == Updated(|after[i].versions| - |apps[i].versions|)
  {
    var i := FindApp(apps, job.info.bundleID).value;
    MergedCovers(apps[i].versions, NormalizeAll(job.remote.releases));
  }

  /** An existing entry keeps unique version strings unique. */
  lemma {:induction false} StepKeepsVersionsUnique(apps: seq<AppEntry>, job: RepoRun)
    requires FindApp(apps, job.info.bundleID).Some?
    requires UniqueVersions(apps[FindApp(apps, job.info.bundleID).value].versions)
    ensures UniqueVersions(Step(apps, job).0[FindApp(apps, job.info.bundleID).value].versions)
  {
    var i := FindApp(apps, job.info.bundleID).value;
    MergedKeepsUnique(apps[i].versions, NormalizeAll(job.remote.releases));
  }

  /** No entry yet: exactly one entry is appended, carrying the bundle identifier and the
      whole `new_versions` list (even when it is empty); the others are untouched. */
  lemma {:induction false} StepCreatesNew(apps: seq<AppEntry>, job: RepoRun)
    requires FindApp(apps, job.info.bundleID).None?
    ensures var (after, outcome) := Step(apps, job);
      |after| == |apps| + 1 && after[..|apps|] == apps &&
      after[|apps|].bundleIdentifier == Some(job.info.bundleID) &&
      after[|apps|].versions == NormalizeAll(job.remote.releases) &&
      after[|apps|].name == job.info.name &&
      after[|apps|].developerName == job.remote.ownerLogin &&
      after[|apps|].subtitle == job.remote.description &&
      after[|apps|].localizedDescription == job.remote.readme &&
      after[|apps|].iconURL == job.info.iconURL.GetOr(Some("")) &&
      outcome == AddedNew
  {
    var after := Step(apps, job).0;
    assert after == apps + [after[|apps|]];
  }

  /** A new entry takes `new_versions` without the dedup check, so two releases whose tags
      normalise to the same string give it two records with that version. */
  lemma {:induction false} NewEntryKeepsDuplicates(apps: seq<AppEntry>, job: RepoRun)
    requires FindApp(apps, job.info.bundleID).None?
    requires |job.remote.releases| == 2
    requires ToVersion(job.remote.releases[0]).Some? && ToVersion(job.remote.releases[1]).Some?
    requires ToVersion(job.remote.releases[0]).value.version == ToVersion(job.remote.releases[1]).value.version
    ensures var versions := Step(apps, job).0[|apps|].versions;
      |versions| == 2 && versions[0].version == versions[1].version
  {
    var releases := job.remote.releases;
    assert releases == [releases[0], releases[1]];
    NormalizePair(releases[0], releases[1]);
    StepCreatesNew(apps, job);
  }

  /** Such releases exist: tags "v1.0" and "1.0", each with an `.ipa` asset, both give "1.0". */
  lemma CollidingTags()
    ensures var r1 := Release(Some("v1.0"), None, None, Some([Asset(Some("a.ipa"), None)]));
      var r2 := Release(Some("1.0"), None, None, Some([Asset(Some("a.ipa"), None)]));
      ToVersion(r1).Some? && ToVersion(r2).Some? &&
      ToVersion(r1).value.version == "1.0" && ToVersion(r2).value.version == "1.0"
  {
    RemoveVLeading();
    RemoveVIdentity("1.0");
    SingleIpaRelease("v1.0");
    SingleIpaRelease("1.0");
  }

  /** A release whose only asset is an `.ipa` yields the record of its normalised tag. */
  lemma SingleIpaRelease(tag: string)
    ensures ToVersion(Release(Some(tag), None, None, Some([Asset(Some("a.ipa"), None)]))).Some?
    ensures ToVersion(Release(Some(tag), None, None, Some([Asset(Some("a.ipa"), None)]))).value.version == RemoveV(tag)
  {
    assert "a.ipa"[1..] == IPA_SUFFIX;
    assert IsIpa(Asset(Some("a.ipa"), None));
  }

  /** Two yielding releases give two records, in order. */
  lemma NormalizePair(r1: Release, r2: Release)
    requires ToVersion(r1).Some? && ToVersion(r2).Some?
    ensures NormalizeAll([r1, r2]) == [ToVersion(r1).value, ToVersion(r2).value]
  {
    assert [r1, r2][..1] == [r1];
    assert [r1][..0] == [];
  }

  /** A step removes no entry and changes nothing but one versions list, which it extends. */
  lemma {:induction false} StepGrows(apps: seq<AppEntry>, job: RepoRun)
    ensures Grows(apps, Step(apps, job).0)
    ensures forall k :: 0 <= k < |apps| && Some(k) != FindApp(apps, job.info.bundleID) ==>
      Step(apps, job).0[k] == apps[k]
  {
    var after := Step(apps, job).0;
    if FindApp(apps, job.info.bundleID).None? {
      assert forall k :: 0 <= k < |apps| ==> after[k] == apps[k];
    }
  }

  /** Bundle identifiers stay unique across the catalog. */
  lemma {:induction false} StepKeepsIdsUnique(apps: seq<AppEntry>, job: RepoRun)
    requires UniqueIds(apps)
    ensures UniqueIds(Step(apps, job).0)
  {
    var after := Step(apps, job).0;
    StepGrows(apps, job);
    assert forall k :: 0 <= k < |apps| ==> after[k].bundleIdentifier == after[k].(versions := apps[k].versions).bundleIdentifier;
    if FindApp(apps, job.info.bundleID).None? {
      assert after[|apps|].bundleIdentifier == Some(job.info.bundleID);
    }
  }

  /** After a step the catalog covers the repository that step processed. */
  lemma {:induction false} StepCovers(apps: seq<AppEntry>, job: RepoRun)
    ensures Covers(Step(apps, job).0, job)
  {
    var after := Step(apps, job).0;
    var newVersions := NormalizeAll(job.remote.releases);
    StepGrows(apps, job);
    match FindApp(apps, job.info.bundleID)
    case Some(i) =>
      FindAppStable(apps, after, job.info.bundleID);
      MergedCovers(apps[i].versions, newVersions);
    case None =>
      assert forall k :: 0 <= k < |apps| ==> after[k] == apps[k];
      assert after[|apps|].bundleIdentifier == Some(job.info.bundleID);
      assert FindApp(after, job.info.bundleID).Some?;
      assert FindApp(after, job.info.bundleID) == Some(|apps|);
      forall v | v in newVersions ensures VersionExists(after[|apps|].versions, v.version) {
        var k :| 0 <= k < |newVersions| && newVersions[k] == v;
        assert after[|apps|].versions[k] == v;
      }
  }

  /** A step on a catalog that already covers the repository changes nothing and adds 0. */
  lemma {:induction false} StepOnCovered(apps: seq<AppEntry>, job: RepoRun)
    requires Covers(apps, job)
    ensures Step(apps, job) == (apps, Updated(0))
  {
    var i := FindApp(apps, job.info.bundleID).value;
    MergedNoop(apps[i].versions, NormalizeAll(job.remote.releases));
    assert apps[i].(versions := apps[i].versions) == apps[i];
    assert apps[i := apps[i]] == apps;
  }

  /** Processing the same repository twice with the same remote data: the second step adds 0. */
  lemma {:induction false} StepIdempotent(apps: seq<AppEntry>, job: RepoRun)
    ensures Step(Step(apps, job).0, job) == (Step(apps, job).0, Updated(0))
  {
    StepCovers(apps, job);
    StepOnCovered(Step(apps, job).0, job);
  }

  /** A whole run removes no entry and only extends versions lists. */
  lemma {:induction false} RunGrows(apps: seq<AppEntry>, jobs: seq<RepoRun>)
    ensures Grows(apps, RunAll(apps, jobs).0)
    decreases |jobs|
  {
    if jobs != [] {
      var next := Step(apps, jobs[0]).0;
      StepGrows(apps, jobs[0]);
      RunGrows(next, jobs[1..]);
      GrowsTransitive(apps, next, RunAll(apps, jobs).0);
    } else {
      assert forall k :: 0 <= k < |apps| ==> apps[k].(versions := apps[k].versions) == apps[k];
    }
  }

  /** A whole run keeps bundle identifiers unique. */
  lemma {:induction false} RunKeepsIdsUnique(apps: seq<AppEntry>, jobs: seq<RepoRun>)
    requires UniqueIds(apps)
    ensures UniqueIds(RunAll(apps, jobs).0)
    decreases |jobs|
  {
    if jobs != [] {
      StepKeepsIdsUnique(apps, jobs[0]);
      RunKeepsIdsUnique(Step(apps, jobs[0]).0, jobs[1..]);
    }
  }

  /** At the end of a run the catalog covers every repository of the run. */
  lemma {:induction false} RunCovers(apps: seq<AppEntry>, jobs: seq<RepoRun>)
    ensures forall job :: job in jobs ==> Covers(RunAll(apps, jobs).0, job)
    decreases |jobs|
  {
    if jobs != [] {
      var next := Step(apps, jobs[0]).0;
      var final := RunAll(apps, jobs).0;
      StepCovers(apps, jobs[0]);
      RunGrows(next, jobs[1..]);
      CoversStable(next, final, jobs[0]);
      RunCovers(next, jobs[1..]);
      forall job | job in jobs ensures Covers(final, job) {
        if job != jobs[0] {
          assert job in jobs[1..];
        }
      }
    }
  }

  /** A run over repositories the catalog already covers changes nothing and adds 0 each time. */
  lemma {:induction false} RunOnCovered(apps: seq<AppEntry>, jobs: seq<RepoRun>)
    requires forall job :: job in jobs ==> Covers(apps, job)
    ensures RunAll(apps, jobs).0 == apps
    ensures forall k :: 0 <= k < |jobs| ==> RunAll(apps, jobs).1[k] == Updated(0)
    decreases |jobs|
  {
    if jobs != [] {
      assert jobs[0] in jobs;
      StepOnCovered(apps, jobs[0]);
      forall job | job in jobs[1..] ensures Covers(apps, job) {
        assert job in jobs;
      }
      RunOnCovered(apps, jobs[1..]);
      var outcomes := RunAll(apps, jobs).1;
      assert outcomes == [Updated(0)] + RunAll(apps, jobs[1..]).1;
      forall k | 0 <= k < |jobs| ensures outcomes[k] == Updated(0) {
        if k > 0 { assert outcomes[k] == RunAll(apps, jobs[1..]).1[k - 1]; }
      }
    }
  }

  /** Running the loop again over the catalog it produced, with unchanged remote data,
      changes nothing and reports zero additions for every repository. */
  lemma {:induction false} RunIdempotent(apps: seq<AppEntry>, jobs: seq<RepoRun>)
    ensures RunAll(RunAll(apps, jobs).0, jobs).0 == RunAll(apps, jobs).0
    ensures forall k :: 0 <= k < |jobs| ==> RunAll(RunAll(apps, jobs).0, jobs).1[k] == Updated(0)
  {
    RunCovers(apps, jobs);
    RunOnCovered(RunAll(apps, jobs).0, jobs);
  }

  /** The script's state: the `myApps` list, loaded from disk and saved at the end. */
  class Scraper {
    var apps: seq<AppEntry>

    constructor (loaded: seq<AppEntry>)
      ensures apps == loaded
    {
      apps := loaded;
    }

    /** One iteration of `for repo_info in scraping`. */
    method ProcessRepo(job: RepoRun) returns (outcome: Outcome)
      modifies this
      ensures apps == Step(old(apps), job).0
      ensures outcome == Step(old(apps), job).1
    {
      ghost var before := apps;
      var existing := FindApp(apps, job.info.bundleID);
      var newVersions := CollectVersions(job.remote.releases);
      if existing.Some? {
        var i := existing.value;
        var merged, added := MergeVersions(apps[i].versions, newVersions);
        StepWhenFound(before, job, i, merged, added);
        apps := apps[i := apps[i].(versions := merged)];
        outcome := Updated(added);
        return;
      }
      StepWhenMissing(before, job, newVersions);
      var app := NewEntry(job.info, job.remote, newVersions);
      apps := apps + [app];
      outcome := AddedNew;
    }

    /** The driver loop over `scraping`. */
    method Run(jobs: seq<RepoRun>) returns (outcomes: seq<Outcome>)
      modifies this
      ensures apps == RunAll(old(apps), jobs).0
      ensures outcomes == RunAll(old(apps), jobs).1
    {
      outcomes := [];
      ghost var goal := RunAll(apps, jobs);
      for i := 0 to |jobs|
        invariant RunAll(apps, jobs[i..]).0 == goal.0
        invariant outcomes + RunAll(apps, jobs[i..]).1 == goal.1
      {
        ghost var before := apps;
        assert jobs[i..][1..] == jobs[i + 1..];
        var outcome := ProcessRepo(jobs[i]);
        RunAllAdvanceCatalog(before, jobs[i..], apps, goal.0);
        RunAllAdvanceOutcomes(before, jobs[i..], apps, outcome, outcomes, goal.1);
        outcomes := outcomes + [outcome];
      }
      assert jobs[|jobs|..] == [];
      assert outcomes + [] == outcomes;
    }
  }
}

/** One GitHub release as the release listing returns it, the choice of its
    installable `.ipa` asset, and the version record built from it. */
module Releases {
  import opened Wrappers

  /** One release asset; `None` stands for a key the JSON object lacks or a `null` value, both
      of which `get` returns as `None`. */
  datatype Asset = Asset(browserDownloadUrl: Option<string>, size: Option<int>)

  /** One release of the listing; every field used is read with `get`, so `None` stands for a
      missing key or a `null` value. */
  datatype Release = Release(
    tagName: Option<string>,
    publishedAt: Option<string>,
    body: Option<string>,
    assets: Option<seq<Asset>>)

  /** The version record appended to an app's `versions` list. */
  datatype VersionRecord = VersionRecord(
    version: string,
    date: Option<string>,
    localizedDescription: Option<string>,
    downloadURL: string,
    size: Option<int>)

  const IPA_SUFFIX: string := ".ipa"

  /** Python's `str.endswith`. */
  predicate EndsWith(s: string, suffix: string) {
    |suffix| <= |s| && s[|s| - |suffix|..] == suffix
  }

  /** The asset's download URL, or `""` when the key is missing. */
  function UrlOf(a: Asset): string {
    a.browserDownloadUrl.GetOr("")
  }

  /** An asset is installable when its download URL ends in ".ipa". */
  predicate IsIpa(a: Asset) {
    EndsWith(UrlOf(a), IPA_SUFFIX)
  }

  /** The release's tag, or `""` when the key is missing. */
  function TagOf(r: Release): string {
    r.tagName.GetOr("")
  }

  /** The release's assets, or none when the key is missing. */
  function AssetsOf(r: Release): seq<Asset> {
    r.assets.GetOr([])
  }

  /** `tag.replace("v", "")`: every lower-case 'v' is removed, not only a leading one. */
  function RemoveV(s: string): (r: string)
    ensures 'v' !in r
    ensures |r| <= |s|
  {
    if s == [] then []
    else (if s[0] == 'v' then [] else [s[0]]) + RemoveV(s[1..])
  }

  /** Removing 'v' works character by character, so it keeps the order of what remains. */
  lemma {:induction false} RemoveVAppend(a: string, b: string)
    ensures RemoveV(a + b) == RemoveV(a) + RemoveV(b)
  {
    if a == [] {
      assert a + b == b;
    } else {
      var head := if a[0] == 'v' then [] else [a[0]];
      assert (a + b)[0] == a[0];
      assert (a + b)[1..] == a[1..] + b;
      assert RemoveV(a + b) == head + RemoveV(a[1..] + b);
      RemoveVAppend(a[1..], b);
      assert RemoveV(a) == head + RemoveV(a[1..]);
    }
  }

  /** A tag without any 'v' is its own version string; so normalising twice is normalising once. */
  lemma {:induction false} RemoveVIdentity(s: string)
    requires 'v' !in s
    ensures RemoveV(s) == s
  {
    if s != [] {
      assert s[0] != 'v';
      assert 'v' !in s[1..];
      RemoveVIdentity(s[1..]);
    }
  }

  /** A leading 'v' goes: "v1.0" becomes "1.0"; a tag without one is kept. */
  lemma {:induction false} RemoveVLeading()
    ensures RemoveV("v1.0") == "1.0"
    ensures RemoveV("2.3.1") == "2.3.1"
  {
    RemoveVIdentity("2.3.1");
    RemoveVIdentity("1.0");
    assert "v1.0"[1..] == "1.0";
  }

  /** Every 'v' goes, not only a leading one: a 'v' between two 'v'-free parts is dropped
      and the parts are joined (so "de-v3" becomes "de-3"). */
  lemma {:induction false} RemoveVInner(a: string, b: string)
    requires 'v' !in a && 'v' !in b
    ensures RemoveV(a + "v" + b) == a + b
  {
    calc {
      RemoveV(a + "v" + b);
    == { RemoveVAppend(a + "v", b); }
      RemoveV(a + "v") + RemoveV(b);
    == { RemoveVAppend(a, "v"); }
      RemoveV(a) + RemoveV("v") + RemoveV(b);
    == { RemoveVIdentity(a); RemoveVIdentity(b); assert RemoveV("v") == []; }
      a + [] + b;
    }
    assert a + [] + b == a + b;
  }

  /** The position of the first installable asset, if any (the `for asset ... break` scan). */
  function FirstIpaIndex(assets: seq<Asset>): (r: Option<nat>)
    ensures r.Some? ==> r.value < |assets| && IsIpa(assets[r.value])
    ensures r.Some? ==> forall k :: 0 <= k < r.value ==> !IsIpa(assets[k])
    ensures r.None? <==> forall k :: 0 <= k < |assets| ==> !IsIpa(assets[k])
  {
    if assets == [] then None
    else if IsIpa(assets[0]) then Some(0)
    else match FirstIpaIndex(assets[1..])
      case None => None
      case Some(k) => Some(k + 1)
  }

  /** The asset loop: the URL and size of the first asset whose URL ends in ".ipa". */
  method PickIpaAsset(assets: seq<Asset>) returns (downloadURL: Option<string>, size: Option<int>)
    ensures FirstIpaIndex(assets).None? ==> downloadURL.None? && size.None?
    ensures FirstIpaIndex(assets).Some? ==>
      downloadURL == Some(UrlOf(assets[FirstIpaIndex(assets).value])) &&
      size == assets[FirstIpaIndex(assets).value].size
    ensures downloadURL.Some? ==> EndsWith(downloadURL.value, IPA_SUFFIX)
  {
    downloadURL, size := None, None;
    var i := 0;
    while i < |assets|
      invariant 0 <= i <= |assets|
      invariant forall k :: 0 <= k < i ==> !IsIpa(assets[k])
      invariant downloadURL.None? && size.None?
    {
      if EndsWith(UrlOf(assets[i]), IPA_SUFFIX) {
        downloadURL := assets[i].browserDownloadUrl;
        size := assets[i].size;
        break;
      }
      i := i + 1;
    }
  }

  /** The record one release contributes: none when it has no ".ipa" asset. */
  function ToVersion(r: Release): (v: Option<VersionRecord>)
    ensures v.Some? <==> exists k :: 0 <= k < |AssetsOf(r)| && IsIpa(AssetsOf(r)[k])
    ensures v.Some? ==> EndsWith(v.value.downloadURL, IPA_SUFFIX) && 'v' !in v.value.version
  {
    match FirstIpaIndex(AssetsOf(r))
    case None => None
    case Some(k) =>
      Some(VersionRecord(RemoveV(TagOf(r)), r.publishedAt, r.body,
                         UrlOf(AssetsOf(r)[k]), AssetsOf(r)[k].size))
  }

  /** A release yields a record exactly when one of its asset URLs ends in ".ipa"; the record's
      URL and size are the first such asset's, its date and changelog are copied, and its
      version is the tag with every 'v' removed. */
  lemma {:induction false} ReleaseYield(r: Release)
    ensures ToVersion(r).Some? <==> exists k :: 0 <= k < |AssetsOf(r)| && IsIpa(AssetsOf(r)[k])
    ensures ToVersion(r).Some? ==>
      exists k :: 0 <= k < |AssetsOf(r)| && IsIpa(AssetsOf(r)[k]) &&
        (forall j :: 0 <= j < k ==> !IsIpa(AssetsOf(r)[j])) &&
        ToVersion(r).value.downloadURL == UrlOf(AssetsOf(r)[k]) &&
        ToVersion(r).value.size == AssetsOf(r)[k].size
    ensures ToVersion(r).Some? ==>
      ToVersion(r).value.version == RemoveV(TagOf(r)) && 'v' !in ToVersion(r).value.version &&
      ToVersion(r).value.date == r.publishedAt &&
      ToVersion(r).value.localizedDescription == r.body &&
      EndsWith(ToVersion(r).value.downloadURL, IPA_SUFFIX)
  {
    var assets := AssetsOf(r);
    if FirstIpaIndex(assets).Some? {
      var k := FirstIpaIndex(assets).value;
      assert IsIpa(assets[k]);
    }
  }

  /** `new_versions` after the release loop: the records of the releases that yield one, in release order. */
  function NormalizeAll(releases: seq<Release>): (vs: seq<VersionRecord>)
    ensures |vs| <= |releases|
  {
    if releases == [] then []
    else NormalizeAll(releases[..|releases| - 1]) + ToVersion(releases[|releases| - 1]).ToSeq()
  }

  /** The positions of the releases that yield a record, in ascending order. */
  function Yielding(releases: seq<Release>): seq<nat> {
    if releases == [] then []
    else Yielding(releases[..|releases| - 1]) +
         (if ToVersion(releases[|releases| - 1]).Some? then [|releases| - 1] else [])
  }

  /** Each record of `new_versions` comes from the release at the matching position of `Yielding`. */
  lemma {:induction false} YieldingMatches(releases: seq<Release>)
    ensures |Yielding(releases)| == |NormalizeAll(releases)|
    ensures forall k :: 0 <= k < |Yielding(releases)| ==>
      Yielding(releases)[k] < |releases| &&
      ToVersion(releases[Yielding(releases)[k]]) == Some(NormalizeAll(releases)[k])
  {
    if releases != [] {
      var n := |releases| - 1;
      var front := releases[..n];
      var last := ToVersion(releases[n]);
      YieldingMatches(front);
      var yf, nf := Yielding(front), NormalizeAll(front);
      var ys, ns := Yielding(releases), NormalizeAll(releases);
      assert ys == yf + (if last.Some? then [n] else []);
      assert ns == nf + last.ToSeq();
      forall k | 0 <= k < |ys|
        ensures ys[k] < |releases| && ToVersion(releases[ys[k]]) == Some(ns[k])
      {
        if k < |yf| {
          assert ys[k] == yf[k] && ns[k] == nf[k];
          assert front[yf[k]] == releases[yf[k]];
        } else {
          assert ys[k] == n && ns[k] == last.value;
        }
      }
    }
  }

  /** The positions in `Yielding` are below the list's length and strictly increasing. */
  lemma {:induction false} YieldingAscending(releases: seq<Release>)
    ensures forall k :: 0 <= k < |Yielding(releases)| ==> Yielding(releases)[k] < |releases|
    ensures forall k, l :: 0 <= k < l < |Yielding(releases)| ==> Yielding(releases)[k] < Yielding(releases)[l]
  {
    if releases != [] {
      var n := |releases| - 1;
      YieldingAscending(releases[..n]);
      var yf := Yielding(releases[..n]);
      assert Yielding(releases) == yf + (if ToVersion(releases[n]).Some? then [n] else []);
    }
  }

  /** `Yielding` lists exactly the releases that yield a record. */
  lemma {:induction false} YieldingComplete(releases: seq<Release>)
    ensures forall j :: 0 <= j < |releases| ==> (ToVersion(releases[j]).Some? <==> j in Yielding(releases))
  {
    if releases != [] {
      var n := |releases| - 1;
      var front := releases[..n];
      YieldingComplete(front);
      YieldingAscending(front);
      var yf := Yielding(front);
      var ys := Yielding(releases);
      var tail: seq<nat> := if ToVersion(releases[n]).Some? then [n] else [];
      assert ys == yf + tail;
      assert n !in yf;
      forall j | 0 <= j < |releases|
        ensures ToVersion(releases[j]).Some? <==> j in ys
      {
        assert (j in ys) == (j in yf || j in tail);
        if j < n {
          assert front[j] == releases[j];
        }
      }
    }
  }

  /** `new_versions` holds one record per yielding release, at strictly increasing release
      positions, and each release that yields a record is represented. */
  lemma {:induction false} NormalizeAllSelects(releases: seq<Release>)
    ensures |Yielding(releases)| == |NormalizeAll(releases)|
    ensures forall k :: 0 <= k < |Yielding(releases)| ==>
      Yielding(releases)[k] < |releases| &&
      ToVersion(releases[Yielding(releases)[k]]) == Some(NormalizeAll(releases)[k])
    ensures forall k, l :: 0 <= k < l < |Yielding(releases)| ==> Yielding(releases)[k] < Yielding(releases)[l]
    ensures forall j :: 0 <= j < |releases| ==> (ToVersion(releases[j]).Some? <==> j in Yielding(releases))
  {
    YieldingMatches(releases);
    YieldingAscending(releases);
    YieldingComplete(releases);
  }

  /** The release loop: builds `new_versions` one release at a time. */
  method CollectVersions(releases: seq<Release>) returns (newVersions: seq<VersionRecord>)
    ensures newVersions == NormalizeAll(releases)
  {
    newVersions := [];
    for i := 0 to |releases|
      invariant newVersions == NormalizeAll(releases[..i])
    {
      assert releases[..i + 1][..i] == releases[..i];
      var release := releases[i];
      var version := RemoveV(TagOf(release));
      var date := release.publishedAt;
      var changelog := release.body;
      var downloadURL, size := PickIpaAsset(AssetsOf(release));
      if downloadURL.None? || downloadURL.value == "" {
        continue;
      }
      newVersions := newVersions + [VersionRecord(version, date, changelog, downloadURL.value, size)];
    }
    assert releases[..|releases|] == releases;
  }
}

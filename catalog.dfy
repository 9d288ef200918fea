/** The app catalog (`myApps`): lookup by bundle identifier, the version
    existence test, and the merge of new version records into an entry. */
module Catalog {
  import opened Wrappers
  import opened Releases

  /** One catalog entry. An entry loaded from disk may lack "bundleIdentifier" (`None`);
      `iconURL` is `None` where the JSON holds `null`. */
  datatype AppEntry = AppEntry(
    name: string,
    bundleIdentifier: Option<string>,
    developerName: string,
    subtitle: Option<string>,
    localizedDescription: string,
    iconURL: Option<string>,
    versions: seq<VersionRecord>)

  /** No two entries carry the same bundle identifier. */
  ghost predicate UniqueIds(apps: seq<AppEntry>) {
    forall i, j :: 0 <= i < j < |apps| && apps[i].bundleIdentifier.Some? ==>
      apps[i].bundleIdentifier != apps[j].bundleIdentifier
  }

  /** No two records of a versions list carry the same version string. */
  ghost predicate UniqueVersions(vs: seq<VersionRecord>) {
    forall i, j :: 0 <= i < j < |vs| ==> vs[i].version != vs[j].version
  }

  /** `find_app`: the position of the first entry whose bundle identifier is `bundleID`. */
  function FindApp(apps: seq<AppEntry>, bundleID: string): (r: Option<nat>)
    ensures r.Some? ==> r.value < |apps| && apps[r.value].bundleIdentifier == Some(bundleID)
    ensures r.Some? ==> forall k :: 0 <= k < r.value ==> apps[k].bundleIdentifier != Some(bundleID)
    ensures r.None? <==> forall k :: 0 <= k < |apps| ==> apps[k].bundleIdentifier != Some(bundleID)
  {
    if apps == [] then None
    else if apps[0].bundleIdentifier == Some(bundleID) then Some(0)
    else match FindApp(apps[1..], bundleID)
      case None => None
      case Some(k) => Some(k + 1)
  }

  /** `version_exists`: some record of `versions` has version string `version`. */
  function VersionExists(versions: seq<VersionRecord>, version: string): (b: bool)
    ensures b <==> exists i :: 0 <= i < |versions| && versions[i].version == version
  {
    if versions == [] then false
    else versions[0].version == version || VersionExists(versions[1..], version)
  }

  /** The versions list after the merge loop: each incoming record, in order, is appended
      unless a record with its version string is already in the (growing) list. */
  function Merged(existing: seq<VersionRecord>, incoming: seq<VersionRecord>): (r: seq<VersionRecord>)
    ensures existing <= r
    ensures |r| <= |existing| + |incoming|
    decreases |incoming|
  {
    if incoming == [] then existing
    else
      var next := if VersionExists(existing, incoming[0].version) then existing else existing + [incoming[0]];
      Merged(next, incoming[1..])
  }

  /** Every appended record is one of the incoming ones. */
  lemma {:induction false} MergedFromIncoming(existing: seq<VersionRecord>, incoming: seq<VersionRecord>)
    ensures forall k :: |existing| <= k < |Merged(existing, incoming)| ==> Merged(existing, incoming)[k] in incoming
    decreases |incoming|
  {
    if incoming != [] {
      var next := if VersionExists(existing, incoming[0].version) then existing else existing + [incoming[0]];
      MergedFromIncoming(next, incoming[1..]);
      var m := Merged(existing, incoming);
      assert m == Merged(next, incoming[1..]);
      forall k | |existing| <= k < |m| ensures m[k] in incoming {
        if k < |next| {
          assert next <= m;
          assert m[k] == next[k] == incoming[0];
        } else {
          assert m[k] in incoming[1..];
        }
      }
    }
  }

  /** Afterwards every incoming version string is present. */
  lemma {:induction false} MergedCovers(existing: seq<VersionRecord>, incoming: seq<VersionRecord>)
    ensures forall v :: v in incoming ==> VersionExists(Merged(existing, incoming), v.version)
    decreases |incoming|
  {
    if incoming != [] {
      var next := if VersionExists(existing, incoming[0].version) then existing else existing + [incoming[0]];
      MergedCovers(next, incoming[1..]);
      var m := Merged(existing, incoming);
      assert VersionExists(next, incoming[0].version) by {
        if !VersionExists(existing, incoming[0].version) {
          assert next[|existing|] == incoming[0];
        }
      }
      assert next <= m;
      forall v | v in incoming ensures VersionExists(m, v.version) {
        if v != incoming[0] {
          assert v in incoming[1..];
        }
      }
    }
  }

  /** An appended record's version string differs from every record before it, whether old
      or appended earlier in the same batch. */
  lemma {:induction false} MergedFresh(existing: seq<VersionRecord>, incoming: seq<VersionRecord>)
    ensures forall i, j :: 0 <= i < j < |Merged(existing, incoming)| && |existing| <= j ==>
      Merged(existing, incoming)[i].version != Merged(existing, incoming)[j].version
    decreases |incoming|
  {
    if incoming != [] {
      var next := if VersionExists(existing, incoming[0].version) then existing else existing + [incoming[0]];
      MergedFresh(next, incoming[1..]);
      var m := Merged(existing, incoming);
      assert next <= m;
      forall i, j | 0 <= i < j < |m| && |existing| <= j ensures m[i].version != m[j].version {
        if j < |next| {
          assert j == |existing| && m[j] == incoming[0];
          assert m[i] == existing[i];
        }
      }
    }
  }

  /** Merging keeps version strings unique when they were unique before. */
  lemma {:induction false} MergedKeepsUnique(existing: seq<VersionRecord>, incoming: seq<VersionRecord>)
    requires UniqueVersions(existing)
    ensures UniqueVersions(Merged(existing, incoming))
  {
    MergedFresh(existing, incoming);
    var m := Merged(existing, incoming);
    forall i, j | 0 <= i < j < |m| ensures m[i].version != m[j].version {
      if j < |existing| {
        assert m[i] == existing[i] && m[j] == existing[j];
      }
    }
  }

  /** When every incoming version string is already present, the merge changes nothing. */
  lemma {:induction false} MergedNoop(existing: seq<VersionRecord>, incoming: seq<VersionRecord>)
    requires forall v :: v in incoming ==> VersionExists(existing, v.version)
    ensures Merged(existing, incoming) == existing
  {
    if incoming != [] {
      assert incoming[0] in incoming;
      forall v | v in incoming[1..] ensures VersionExists(existing, v.version) {
        assert v in incoming;
      }
      MergedNoop(existing, incoming[1..]);
    }
  }

  /** Merging the same records a second time adds nothing. */
  lemma {:induction false} MergedIdempotent(existing: seq<VersionRecord>, incoming: seq<VersionRecord>)
    ensures Merged(Merged(existing, incoming), incoming) == Merged(existing, incoming)
  {
    MergedCovers(existing, incoming);
    MergedNoop(Merged(existing, incoming), incoming);
  }

  /** The merge loop over `existing_versions` with its `added` counter. */
  method MergeVersions(existing: seq<VersionRecord>, incoming: seq<VersionRecord>)
    returns (merged: seq<VersionRecord>, added: nat)
    ensures merged == Merged(existing, incoming)
    ensures added == |merged| - |existing|
  {
    merged, added := existing, 0;
    for i := 0 to |incoming|
      invariant Merged(merged, incoming[i..]) == Merged(existing, incoming)
      invariant existing <= merged
      invariant added == |merged| - |existing|
    {
      assert incoming[i..][1..] == incoming[i + 1..];
      var v := incoming[i];
      if !VersionExists(merged, v.version) {
        merged := merged + [v];
        added := added + 1;
      }
    }
    assert incoming[|incoming|..] == [];
  }
}

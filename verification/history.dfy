/** `saveHistory`: folds one check's `fullData` into the stored record. The
    key-value store is the optional record passed in and the record returned;
    the clock is the `now` parameter. */
module History {
  import opened Wrappers
  import opened Types
  import JsString

  /** `versions.some(v => v.version === version)`. */
  function HasVersion(vs: seq<Entry>, version: Option<string>): (b: bool)
    ensures b <==> exists k :: 0 <= k < |vs| && vs[k].version == version
    decreases |vs|
  {
    if vs == [] then false
    else if vs[0].version == version then true
    else
      assert forall k :: 1 <= k < |vs| ==> vs[k] == vs[1..][k - 1];
      HasVersion(vs[1..], version)
  }

  /** The stored history, or the empty one of a record that does not exist yet. */
  function StoredVersions(existing: Option<Record>): seq<Entry> {
    if existing.Some? then existing.value.versions else []
  }

  /** `newData.scraped?.versions?.[0]`. */
  function FirstScraped(d: Snapshot): (e: Option<Entry>)
    ensures e.Some? <==> d.scraped.Some? && d.scraped.value.versions != []
    ensures e.Some? ==> e.value == d.scraped.value.versions[0]
  {
    if d.scraped.Some? && d.scraped.value.versions != [] then Some(d.scraped.value.versions[0]) else None
  }

  /** The merge prepends: the latest scraped entry has a version and no stored entry has that version. */
  ghost predicate Prepends(stored: seq<Entry>, d: Snapshot) {
    && FirstScraped(d).Some?
    && JsString.Truthy(FirstScraped(d).value.version)
    && forall k :: 0 <= k < |stored| ==> stored[k].version != FirstScraped(d).value.version
  }

  /** `saveHistory(appId, country, newData)`: the record it writes. */
  function Merge(existing: Option<Record>, appId: string, country: string, d: Snapshot, now: string): (r: Record)
    ensures r.lookup == d.lookup && r.appId == appId && r.country == country && r.updatedAt == now
    ensures Prepends(StoredVersions(existing), d) ==> r.versions == [FirstScraped(d).value] + StoredVersions(existing)
    ensures !Prepends(StoredVersions(existing), d) ==> r.versions == StoredVersions(existing)
    ensures FirstScraped(d).None? ==> r.versions == StoredVersions(existing)
  {
    var stored := StoredVersions(existing);
    var versions :=
      match FirstScraped(d)
      case Some(latest) =>
        if JsString.Truthy(latest.version) && !HasVersion(stored, latest.version) then [latest] + stored else stored
      case None => stored;
    Record(versions, d.lookup, appId, country, now)
  }

  /** The invariant of a history built by merges: every entry has a version, and no two share one. */
  ghost predicate ValidHistory(vs: seq<Entry>) {
    && (forall k :: 0 <= k < |vs| ==> JsString.Truthy(vs[k].version))
    && (forall k, l :: 0 <= k < l < |vs| ==> vs[k].version != vs[l].version)
  }

  /** One merge keeps the invariant. */
  lemma MergeKeepsValid(existing: Option<Record>, appId: string, country: string, d: Snapshot, now: string)
    requires ValidHistory(StoredVersions(existing))
    ensures ValidHistory(Merge(existing, appId, country, d, now).versions)
  {
    var stored := StoredVersions(existing);
    var vs := Merge(existing, appId, country, d, now).versions;
    if Prepends(stored, d) {
      forall k, l | 0 <= k < l < |vs|
        ensures vs[k].version != vs[l].version
      {
        if k > 0 {
          assert vs[k] == stored[k - 1] && vs[l] == stored[l - 1];
        } else {
          assert vs[l] == stored[l - 1];
        }
      }
    }
  }

  /** Merging the same `fullData` again leaves the history and the lookup as they are;
      only the timestamp moves. */
  lemma MergeIdempotent(existing: Option<Record>, appId: string, country: string, d: Snapshot, t1: string, t2: string)
    ensures var once := Merge(existing, appId, country, d, t1);
      Merge(Some(once), appId, country, d, t2) == once.(updatedAt := t2)
  {
    var once := Merge(existing, appId, country, d, t1);
    if Prepends(StoredVersions(existing), d) {
      assert once.versions[0].version == FirstScraped(d).value.version;
      assert !Prepends(once.versions, d);
    }
  }

  /** A stored 2.0 and a freshly scraped 2.1 give the history [2.1, 2.0]; the
      same scrape again adds nothing. */
  lemma MergeExample(lookup: Option<Lookup>, url: string, t1: string, t2: string)
    ensures var e20 := Entry(Some("2.0"), None, None);
      var e21 := Entry(Some("2.1"), None, Some("fix"));
      var prior := Record([e20], None, "id", "us", "");
      var d := Snapshot(lookup, Some(Extraction(url, [e21])));
      var once := Merge(Some(prior), "id", "us", d, t1);
      && once.versions == [e21, e20]
      && Merge(Some(once), "id", "us", d, t2).versions == [e21, e20]
  {
    var e20 := Entry(Some("2.0"), None, None);
    var e21 := Entry(Some("2.1"), None, Some("fix"));
    var d := Snapshot(lookup, Some(Extraction(url, [e21])));
    assert Prepends([e20], d);
    assert [e21, e20][0].version == FirstScraped(d).value.version;
  }

  /** One check: the `fullData` it saves and the time it saves it. */
  datatype Step = Step(d: Snapshot, now: string)

  /** The record after a sequence of checks for one (appId, country) key. */
  function Replay(existing: Option<Record>, appId: string, country: string, steps: seq<Step>): (r: Option<Record>)
    ensures r.None? <==> existing.None? && steps == []
    decreases |steps|
  {
    if steps == [] then existing
    else Replay(Some(Merge(existing, appId, country, steps[0].d, steps[0].now)), appId, country, steps[1..])
  }

  /** Starting from no record (or a valid one), the stored history stays free of
      null or empty versions and of repeated versions, however many checks run. */
  lemma {:induction false} ReplayKeepsValid(existing: Option<Record>, appId: string, country: string, steps: seq<Step>)
    requires ValidHistory(StoredVersions(existing))
    ensures ValidHistory(StoredVersions(Replay(existing, appId, country, steps)))
    decreases |steps|
  {
    if steps != [] {
      MergeKeepsValid(existing, appId, country, steps[0].d, steps[0].now);
      ReplayKeepsValid(Some(Merge(existing, appId, country, steps[0].d, steps[0].now)), appId, country, steps[1..]);
    }
  }

  /** `a` ends `b`. */
  ghost predicate EndsWith(b: seq<Entry>, a: seq<Entry>) {
    |a| <= |b| && b[|b| - |a|..] == a
  }

  lemma EndsWithTransitive(c: seq<Entry>, b: seq<Entry>, a: seq<Entry>)
    requires EndsWith(c, b) && EndsWith(b, a)
    ensures EndsWith(c, a)
  {
    assert c[|c| - |a|..] == c[|c| - |b|..][|b| - |a|..];
  }

  /** Over a sequence of checks the old history survives as a suffix, in its
      order, and the history grows by at most one entry per check. */
  lemma {:induction false} ReplayKeepsOldEntries(existing: Option<Record>, appId: string, country: string, steps: seq<Step>)
    ensures var vs := StoredVersions(Replay(existing, appId, country, steps));
      && EndsWith(vs, StoredVersions(existing))
      && |vs| <= |StoredVersions(existing)| + |steps|
    decreases |steps|
  {
    if steps != [] {
      var next := Merge(existing, appId, country, steps[0].d, steps[0].now);
      ReplayKeepsOldEntries(Some(next), appId, country, steps[1..]);
      var vs := StoredVersions(Replay(existing, appId, country, steps));
      assert vs == StoredVersions(Replay(Some(next), appId, country, steps[1..]));
      assert EndsWith(next.versions, StoredVersions(existing));
      EndsWithTransitive(vs, next.versions, StoredVersions(existing));
    }
  }
}

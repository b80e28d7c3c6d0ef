/** `checkAndSave`: one update check. It merges the observation into the stored
    record, decides whether the version changed, and builds the Discord alert
    when it did. */
module Reconcile {
  import opened Wrappers
  import opened Types
  import JsString
  import History

  /** The lookup carries a usable version. */
  predicate LookupHasVersion(lookup: Option<Lookup>) {
    lookup.Some? && JsString.Truthy(lookup.value.version)
  }

  /** `lookup?.version || (versions?.[0]?.version || null)`: the lookup's version
      is preferred, the most recent entry's version is the fallback. */
  function LatestOf(lookup: Option<Lookup>, versions: seq<Entry>): (v: Option<string>)
    ensures v.Some? ==> v.value != ""
    ensures v.None? <==> !LookupHasVersion(lookup) && (versions == [] || !JsString.Truthy(versions[0].version))
    ensures LookupHasVersion(lookup) ==> v == lookup.value.version
    ensures !LookupHasVersion(lookup) && v.Some? ==> v == versions[0].version
  {
    if LookupHasVersion(lookup) then lookup.value.version
    else if versions != [] && JsString.Truthy(versions[0].version) then versions[0].version
    else None
  }

  /** The outcome of a check: `{ error }` when the scrape threw, otherwise
      `{ changed, latestVersion, prevLatest }`. */
  datatype Verdict = Failed | Checked(changed: bool, latestVersion: Option<string>, prevLatest: Option<string>)

  /** The decision of server.js lines 198-201, for a previous record `prev`. */
  function Decide(prev: Option<Record>, lookup: Option<Lookup>, scraped: seq<Entry>): (v: Verdict)
    ensures v.Checked?
    ensures v.latestVersion == LatestOf(lookup, scraped)
    ensures prev.None? ==> v.prevLatest.None?
    ensures prev.Some? ==> v.prevLatest == LatestOf(prev.value.lookup, prev.value.versions)
    ensures v.changed <==> v.latestVersion.Some? && v.latestVersion != v.prevLatest
  {
    var latest := LatestOf(lookup, scraped);
    var prevLatest := if prev.Some? then LatestOf(prev.value.lookup, prev.value.versions) else None;
    Checked(latest.Some? && latest != prevLatest, latest, prevLatest)
  }

  /** With neither a lookup nor a scraped entry there is no signal: nothing changed,
      whatever was stored before. */
  lemma NoSignal(prev: Option<Record>)
    ensures Decide(prev, None, []) == Checked(false, None, Decide(prev, None, []).prevLatest)
  {
  }

  /** The webhook message: `content` and the embed's `title`, `url`,
      `description` and `timestamp`. */
  datatype Alert = Alert(title: string, content: string, description: string, url: string, timestamp: string)

  /** The lookup carries release notes. */
  predicate LookupHasNotes(lookup: Option<Lookup>) {
    lookup.Some? && JsString.Truthy(lookup.value.releaseNotes)
  }

  /** The name the alert gives the app: the lookup's track name, else the app id. */
  predicate LookupHasName(lookup: Option<Lookup>) {
    lookup.Some? && JsString.Truthy(lookup.value.trackName)
  }

  /** `lookup?.releaseNotes || (scraped.versions?.[0]?.notes || 'No notes')`. */
  function AlertNotes(lookup: Option<Lookup>, scraped: seq<Entry>): (n: string)
    ensures n != ""
    ensures LookupHasNotes(lookup) ==> n == lookup.value.releaseNotes.value
    ensures !LookupHasNotes(lookup) && scraped != [] && JsString.Truthy(scraped[0].notes) ==> n == scraped[0].notes.value
    ensures !LookupHasNotes(lookup) && (scraped == [] || !JsString.Truthy(scraped[0].notes)) ==> n == "No notes"
  {
    var fromScrape := if scraped != [] then JsString.AttrOr(scraped[0].notes, "No notes") else "No notes";
    if lookup.Some? then JsString.AttrOr(lookup.value.releaseNotes, fromScrape) else fromScrape
  }

  /** The store page linked from the alert. */
  function StoreUrl(appId: string, country: string): string {
    "https://apps.apple.com/" + country + "/app/id" + appId
  }

  /** The alert for a detected version `latest`: the title names the app and the
      version, the embed carries the first 2000 characters of the notes and the
      message text the first 800 of them. */
  function BuildAlert(appId: string, country: string, lookup: Option<Lookup>, scraped: seq<Entry>, latest: string, now: string): (a: Alert)
    ensures var notes := AlertNotes(lookup, scraped);
      && a.description <= notes
      && |a.description| == (if |notes| < 2000 then |notes| else 2000)
      && a.description != ""
    ensures LookupHasName(lookup) ==> a.title == "Update detected: " + lookup.value.trackName.value + " \U{2014} v" + latest
    ensures !LookupHasName(lookup) ==> a.title == "Update detected: " + appId + " \U{2014} v" + latest
    ensures a.content == "**" + a.title + "**\n" + JsString.Prefix(a.description, 800) + "\n\n" + a.url
    ensures a.url == StoreUrl(appId, country)
    ensures a.timestamp == now
  {
    var name := if lookup.Some? then JsString.AttrOr(lookup.value.trackName, appId) else appId;
    var title := "Update detected: " + name + " \U{2014} v" + latest;
    var notes := AlertNotes(lookup, scraped);
    var url := StoreUrl(appId, country);
    var description := JsString.Prefix(notes, 2000);
    assert JsString.Prefix(description, 800) == JsString.Prefix(notes, 800);
    Alert(title, "**" + title + "**\n" + JsString.Prefix(notes, 800) + "\n\n" + url, description, url, now)
  }

  /** What one check leaves behind: the stored record, the verdict and the alert sent, if any. */
  datatype Cycle = Cycle(stored: Option<Record>, verdict: Verdict, alert: Option<Alert>)

  /** The shared body of the check, comparing against `prev`. */
  function Check(stored: Option<Record>, prev: Option<Record>, appId: string, country: string,
                 lookup: Option<Lookup>, scraped: Option<Extraction>, now: string): (c: Cycle)
    ensures scraped.None? ==> c == Cycle(stored, Failed, None)
    ensures scraped.Some? ==> c.stored == Some(History.Merge(stored, appId, country, Snapshot(lookup, scraped), now))
    ensures scraped.Some? ==> c.verdict == Decide(prev, lookup, scraped.value.versions)
    ensures c.alert.Some? <==> c.verdict.Checked? && c.verdict.changed
    ensures scraped.Some? && c.alert.Some? ==>
      c.alert.value == BuildAlert(appId, country, lookup, scraped.value.versions, c.verdict.latestVersion.value, now)
  {
    if scraped.None? then Cycle(stored, Failed, None)
    else
      var record := History.Merge(stored, appId, country, Snapshot(lookup, scraped), now);
      var verdict := Decide(prev, lookup, scraped.value.versions);
      var alert :=
        if verdict.changed then Some(BuildAlert(appId, country, lookup, scraped.value.versions, verdict.latestVersion.value, now))
        else None;
      Cycle(Some(record), verdict, alert)
  }

  /** `checkAndSave` as written. `scraped` is None when `fetchFullHistory` threw.
      `prev` is the value of `saveHistory`, which returns nothing, so the
      previous version is always null and any version at all counts as a change. */
  function CheckAndSave(stored: Option<Record>, appId: string, country: string,
                        lookup: Option<Lookup>, scraped: Option<Extraction>, now: string): (c: Cycle)
    ensures scraped.None? ==> c == Cycle(stored, Failed, None)
    ensures scraped.Some? ==> c.stored == Some(History.Merge(stored, appId, country, Snapshot(lookup, scraped), now))
    ensures scraped.Some? ==> c.verdict.Checked? && c.verdict.prevLatest.None?
    ensures scraped.Some? ==> c.verdict.latestVersion == LatestOf(lookup, scraped.value.versions)
    ensures scraped.Some? ==> (c.verdict.changed <==> LatestOf(lookup, scraped.value.versions).Some?)
    ensures c.alert.Some? <==> c.verdict.Checked? && c.verdict.changed
    ensures scraped.Some? && c.alert.Some? ==>
      c.alert.value == BuildAlert(appId, country, lookup, scraped.value.versions, c.verdict.latestVersion.value, now)
  {
    Check(stored, None, appId, country, lookup, scraped, now)
  }

  /** As written, a check repeated with the same observation alerts again: every
      scheduled run re-announces the current version. */
  lemma AsWrittenRealerts(stored: Option<Record>, appId: string, country: string,
                          lookup: Option<Lookup>, scraped: Extraction, t1: string, t2: string)
    requires LatestOf(lookup, scraped.versions).Some?
    ensures var c1 := CheckAndSave(stored, appId, country, lookup, Some(scraped), t1);
      && c1.alert.Some?
      && CheckAndSave(c1.stored, appId, country, lookup, Some(scraped), t2).alert.Some?
  {
  }

  /** `checkAndSave` with `prev` the record loaded before the merge, as the
      previous-version computation evidently intends. */
  function CheckAndSaveCorrected(stored: Option<Record>, appId: string, country: string,
                                 lookup: Option<Lookup>, scraped: Option<Extraction>, now: string): (c: Cycle)
    ensures scraped.None? ==> c == Cycle(stored, Failed, None)
    ensures scraped.Some? ==> c.stored == Some(History.Merge(stored, appId, country, Snapshot(lookup, scraped), now))
    ensures scraped.Some? && stored.None? ==> c.verdict.Checked? && c.verdict.prevLatest.None?
    ensures scraped.Some? && stored.Some? ==>
      c.verdict.Checked? && c.verdict.prevLatest == LatestOf(stored.value.lookup, stored.value.versions)
    ensures scraped.Some? ==> c.verdict.latestVersion == LatestOf(lookup, scraped.value.versions)
    ensures scraped.Some? ==>
      (c.verdict.changed <==> c.verdict.latestVersion.Some? && c.verdict.latestVersion != c.verdict.prevLatest)
    ensures c.alert.Some? <==> c.verdict.Checked? && c.verdict.changed
    ensures scraped.Some? && c.alert.Some? ==>
      c.alert.value == BuildAlert(appId, country, lookup, scraped.value.versions, c.verdict.latestVersion.value, now)
  {
    Check(stored, stored, appId, country, lookup, scraped, now)
  }

  /** With the previous record compared, a repeated check alerts again only when
      the lookup has no version and the scraped version is an older stored
      entry, not the head of the history (a rollback). */
  lemma CorrectedRealertsOnlyOnRollback(stored: Option<Record>, appId: string, country: string,
                                        lookup: Option<Lookup>, scraped: Extraction, t1: string, t2: string)
    ensures var c1 := CheckAndSaveCorrected(stored, appId, country, lookup, Some(scraped), t1);
      var c2 := CheckAndSaveCorrected(c1.stored, appId, country, lookup, Some(scraped), t2);
      var prior := History.StoredVersions(stored);
      c2.alert.Some? <==>
        && !LookupHasVersion(lookup)
        && scraped.versions != []
        && JsString.Truthy(scraped.versions[0].version)
        && History.HasVersion(prior, scraped.versions[0].version)
        && prior[0].version != scraped.versions[0].version
  {
    var d := Snapshot(lookup, Some(scraped));
    var prior := History.StoredVersions(stored);
    var r1 := History.Merge(stored, appId, country, d, t1);
    if !LookupHasVersion(lookup) && scraped.versions != [] && JsString.Truthy(scraped.versions[0].version) {
      if History.Prepends(prior, d) {
        assert r1.versions[0] == scraped.versions[0];
        assert !History.HasVersion(prior, scraped.versions[0].version);
      } else {
        assert r1.versions == prior;
        assert History.HasVersion(prior, scraped.versions[0].version);
      }
    }
  }

  /** A stored version 1.0 and a lookup reporting 1.1 make a transition from 1.0 to 1.1. */
  lemma CorrectedTransition(r: Record, appId: string, country: string, trackName: Option<string>,
                            notes: Option<string>, scraped: Extraction, now: string)
    requires r.lookup.Some? && r.lookup.value.version == Some("1.0")
    ensures CheckAndSaveCorrected(Some(r), appId, country, Some(Lookup(trackName, Some("1.1"), notes)), Some(scraped), now).verdict
      == Checked(true, Some("1.1"), Some("1.0"))
  {
  }
}

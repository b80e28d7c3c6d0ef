# iOS App Version Tracker — a Dafny model of its decision logic

The tracker watches one App Store listing per country. Each check does four things:

- It asks the iTunes lookup API for the latest version.
- It scrapes the listing page for version entries.
- It folds the newest scraped entry into a history stored in a key-value store.
- It sends a Discord alert when it decides the version changed.

This project models the four pieces of that flow that make decisions, all in `server.js`:

- **The extraction cascade** of `fetchFullHistory` (`extract.dfy`). There are four selector tiers in a fixed order. Each later tier runs only while no entry has been found. Supporting pieces:
  - the version-token scan `[0-9]+\.[0-9]+(\.[0-9]+)*` (`version_token.dfy`);
  - the `<br>` → newline rewrite of the release notes (`line_breaks.dfy`);
  - JavaScript `trim`, `||` on strings, `split` and `substring` (`jsstring.dfy`), with `Join` as the reference inverse of `split` (the tracker never joins).
- **The history merge** of `saveHistory` (`history.dfy`). The store is modelled as a value: an optional record goes in and the new record comes out. The clock is the `now` parameter.
- **The change decision** of `checkAndSave` (`reconcile.dfy`). This covers the latest and previous versions, the `changed` verdict and the alert text.
- **The country list** of the scheduled job (`schedule.dfy`): `COUNTRIES` parsing and the page language per country.

DOM queries are not modelled as HTML. Each tier receives the strings its cheerio queries return:

- `.text()` is a string, empty when nothing matched;
- `.attr(..)` and `.html()` are optional strings.

JavaScript `null`/`undefined` is `Option.None`. A string is truthy when it is present and non-empty.

Where the code and its own stated intent disagree, the model follows the code:

- **Previous version.** The header comment of `checkAndSave` says it compares with the saved history (server.js:185). The code compares against the value of `saveHistory`, which is always `undefined` (see Findings).
- **Empty fallback notes.** Tiers 1 to 3 drop a candidate without version and notes. The description fallback (`server.js:111-112`) tests the description before trimming it. A description of white space only therefore yields the entry `{version: null, date: null, notes: ""}`. `Extract.Emitted` admits exactly this shape.

## Model

| member | source | states |
|---|---|---|
| `JsString.Trim` | server.js:65 | The result is `s` with a run of leading and a run of trailing white space removed, where white space is the ECMAScript set. It does not start or end with white space. It is empty exactly when `s` is all white space. |
| `JsString.Split` | server.js:278 | Splitting on a separator gives at least one piece. No piece contains the separator. Joining the pieces with the separator gives back the input. |
| `JsString.SplitJoin` | server.js:278 | Splitting pieces joined with a separator they do not contain gives the pieces back, empty ones included. |
| `JsString.Prefix` | server.js:206-210 | `substring(0, n)` keeps the first `n` characters, or all of a shorter string. The result is a prefix of the input. |
| `VersionToken.MatchEndCorrect` | server.js:67 | The greedy match at a position is a dotted token. No longer token starts at that position. When the greedy scan fails there, no token starts there at all. |
| `VersionToken.Locate` | server.js:67 | The regex finds a match exactly when some substring is a dotted token. The match is the leftmost one, and the longest among those starting at that position. |
| `VersionToken.VersionFromLabel` | server.js:67-68 | A label without a dotted token is returned as is. Otherwise the result is the match the regex scan reports. That token is digits and dots only, starts and ends with a digit, contains a dot and has no two adjacent dots. |
| `VersionToken.LabelIsLeftmostLongest` | server.js:67-68 | When the label holds a dotted token, the version taken from it is the leftmost token, and the longest one starting there. |
| `LineBreaks.TagEndCorrect` | server.js:74 | The scan at a position reports an end exactly when the text between is a `<br` tag in either case, optional white space, an optional `/` and `>`. So at most one tag starts at any given position, and none starts there when the scan fails. |
| `LineBreaks.ReplaceBreaks` | server.js:74 | The rewritten notes are never longer than the markup. |
| `LineBreaks.ReplacesTag` | server.js:74 | A tag becomes exactly one newline, and the rewrite resumes right after the tag. |
| `LineBreaks.CopiesNonTag` | server.js:74 | A character where no tag starts is copied unchanged, and the rewrite resumes at the next character. |
| `LineBreaks.KeepsTextBeforeTag` | server.js:74 | Text up to the next `<` is copied unchanged and the rewrite resumes after it. |
| `LineBreaks.NoTagUnchanged` | server.js:74 | Notes markup without `<` passes through the rewrite unchanged. |
| `LineBreaks.BreaksExample` | server.js:74 | `<br/>` and `<BR >` both become newlines: `a<br/>b<BR >c` gives `a\nb\nc`. |
| `Extract.Candidate` | server.js:77 | `{version: version or null, date: date or null, notes: notes or null}` has no empty strings, keeps each non-empty input as given, and has a version or notes exactly when the version or notes string is non-empty. |
| `Extract.KeepEntries` | server.js:76-77 | The guard `if (version or notes)` keeps exactly the candidates that have a version or notes, and only those. |
| `Extract.KeepEntriesSingle` | server.js:76-77 | A lone candidate is kept exactly when it has a version or notes. |
| `Extract.KeepEntriesAppend` | server.js:84-93 | The kept entries of consecutive candidates follow each other. So the order and the repetitions of the document are preserved. |
| `Extract.KeepEntriesHead` | server.js:76-77 | Nothing is kept exactly when no candidate has a version or notes. Otherwise the first entry is the first candidate that does. |
| `Extract.WhatsNewNotes` | server.js:73-74 | The notes are the trimmed `<br>`-rewritten markup when the markup is present and non-empty, else the trimmed plain text. |
| `Extract.WhatsNewCandidate` | server.js:65-76 | The section's candidate passes the guard exactly when the trimmed version label or the notes are not blank. |
| `Extract.WhatsNewFields` | server.js:65-77 | The version is null exactly when the trimmed label is blank, and is otherwise the version taken from the label. The `datetime` attribute is preferred to the trimmed time text. The notes are the notes above, null when blank. |
| `Extract.Tier1` | server.js:63-80 | The newest layout yields at most one entry, and none without a `whats-new` section. Its entries are well formed. |
| `Extract.Tier1Entry` | server.js:63-80 | Tier 1 yields an entry exactly when there is a `whats-new` section whose trimmed version label or notes are not blank. Notes alone are enough. That entry is the section's candidate. |
| `Extract.WhatsNewVersion` | server.js:65-77 | A non-blank version label always yields the tier-1 entry. Its version is the leftmost dotted token of the trimmed label, or the whole trimmed label when there is no token. A blank label gives a null version. |
| `Extract.PageUrl` | server.js:47 | The page address: the store host, the country, `app/id` with the app id, and the `l` query parameter set to the language. |
| `Extract.HistoryCandidate` | server.js:87-90 | A legacy item's candidate passes the guard exactly when one of its four version or notes texts is not blank after trimming. |
| `Extract.HistoryFields` | server.js:87-89 | The version is the version-number text, else the `h4` text. The date is the `datetime` attribute, else the time text. The notes are the release-notes text, else the content text. All are trimmed and null when blank. |
| `Extract.Tier2` | server.js:83-94 | The legacy layout yields at most one entry per history item, each well formed. |
| `Extract.Tier2Single` | server.js:90-92 | A lone item yields its candidate exactly when it has a non-blank version or notes text, and nothing otherwise. |
| `Extract.Tier2Append` | server.js:84-93 | The entries of consecutive items follow each other in document order. |
| `Extract.Tier2Head` | server.js:83-94 | Tier 2 is empty, and the cascade falls through, exactly when no item has a non-blank version or notes text. Otherwise its first entry is the candidate of the first item that has one. |
| `Extract.LooseCandidate` | server.js:101-104 | A loose item's candidate passes the guard exactly when its title or notes text is not blank after trimming. |
| `Extract.LooseFields` | server.js:101-103 | The version is the trimmed title text. The date is the `datetime` attribute, else the trimmed time text. The notes are the trimmed notes text. Blank texts are null. |
| `Extract.Tier3` | server.js:97-106 | The loose fallback yields at most one entry per matched item, each well formed. |
| `Extract.Tier3Single` | server.js:104 | A lone item yields its candidate exactly when its title or notes text is not blank. |
| `Extract.Tier3Append` | server.js:98-105 | The entries of consecutive items follow each other in document order. |
| `Extract.Tier3Head` | server.js:97-106 | Tier 3 is empty exactly when no item has a non-blank title or notes text. Otherwise its first entry is the candidate of the first item that has one. |
| `Extract.MetaNotes` | server.js:111 | The `description` content is preferred when non-empty, then the `og:description` content. The result is empty exactly when neither is non-empty. |
| `Extract.Tier4` | server.js:109-113 | The description fallback yields one entry exactly when the `description` or `og:description` meta is non-empty. The entry has null version and date. Its notes are the trimmed description, with `description` preferred. |
| `Extract.FirstNonEmpty` | server.js:83-113 | The result is the first non-empty tier output, with every earlier tier empty. It is empty exactly when every tier is. |
| `Extract.Cascade` | server.js:61-113 | The page's entries come from exactly one tier, and every earlier tier produced nothing. There are no entries exactly when all four tiers are empty. Every entry is well formed: empty version and date strings are null, and there is a version or notes. |
| `Extract.FallbackDepth` | server.js:108-113 | When tiers 1-3 find nothing, the result has at most one entry. It is non-empty exactly when a description meta is non-empty. That entry is `{null, null, trimmed description}`. |
| `Extract.FetchFullHistory` | server.js:46-115 | Once the page is parsed, the result carries the requested address and exactly the entries of the cascade. |
| `History.HasVersion` | server.js:133-135 | `some(v => v.version === version)` holds exactly when some stored entry has that version. |
| `History.FirstScraped` | server.js:130 | `newData.scraped?.versions?.[0]` is present exactly when there is a scrape with at least one entry, and it is then that first entry. |
| `History.Merge` | server.js:122-151 | The lookup, appId, country and updatedAt are always overwritten. The latest scraped entry is prepended exactly when its version is non-empty and no stored entry has that version. Otherwise the history is unchanged, including when the scrape is missing or empty. |
| `History.MergeKeepsValid` | server.js:132-141 | A merge keeps a history whose versions are all non-empty and pairwise distinct. |
| `History.MergeIdempotent` | server.js:130-146 | Merging the same `fullData` twice gives the record of one merge, except for the timestamp. |
| `History.MergeExample` | server.js:132-139 | A stored 2.0 plus a scraped 2.1 gives [2.1, 2.0]. The same scrape again leaves [2.1, 2.0]. |
| `History.ReplayKeepsValid` | server.js:126-141 | From no record, any sequence of checks leaves versions that are non-empty and pairwise distinct. |
| `History.ReplayKeepsOldEntries` | server.js:137-139 | Over any sequence of checks, the old history remains the suffix of the stored history, in order. The history grows by at most one entry per check. |
| `Reconcile.LatestOf` | server.js:198-199 | The result is the lookup's version when it is non-empty, else the first entry's non-empty version, else null. It is never the empty string. |
| `Reconcile.Decide` | server.js:198-201 | `changed` holds exactly when the latest version is non-null and differs from the previous one. The previous version is null without a previous record. |
| `Reconcile.NoSignal` | server.js:198-201 | Without a lookup and without scraped entries, nothing changed and the latest version is null, whatever was stored before. |
| `Reconcile.AlertNotes` | server.js:204 | The lookup's release notes are preferred when non-empty. Next come the first scraped entry's notes when non-empty. Otherwise the notes are `No notes`. They are never empty. |
| `Reconcile.StoreUrl` | server.js:205 | The linked store page: the store host, the country and `app/id` with the app id, without a language parameter. |
| `Reconcile.BuildAlert` | server.js:203-212 | The title is `Update detected: `, then the lookup's track name when non-empty or else the app id, then an em dash and `v` with the version. The embed description is the first 2000 characters of the notes, and never empty. The message text carries the first 800 of them between the bold title and the store URL. |
| `Reconcile.CheckAndSave` | server.js:188-222 | A scrape failure saves nothing and gives the error verdict. Otherwise the merged record is saved and the previous version is null. `changed` then holds exactly when there is a latest version. An alert is built exactly when `changed` holds, and it is the `BuildAlert` alert for the latest version. |
| `Reconcile.AsWrittenRealerts` | server.js:195-201 | Repeating a check with the same observation alerts again whenever there is a latest version. |
| `Reconcile.CheckAndSaveCorrected` | server.js:195-201 | A scrape failure saves nothing and gives the error verdict. Otherwise the merged record is saved. The latest version is taken from the lookup and the scrape as in `CheckAndSave`. The previous version is read from the record loaded before the merge, null without one. `changed` holds exactly when the latest version is non-null and differs from the previous one, and an alert is built exactly then. The alert is the `BuildAlert` alert for the latest version. |
| `Reconcile.CorrectedRealertsOnlyOnRollback` | server.js:195-201 | With the correction, a repeated check alerts again only in one case. The lookup has no version, and the scraped version is already stored but is not the head of the history. |
| `Reconcile.CorrectedTransition` | server.js:198-201 | With the correction, a stored 1.0 and a lookup reporting 1.1 give changed, latest 1.1 and previous 1.0. |
| `Schedule.NonBlank` | server.js:278 | `.filter(Boolean)` keeps exactly the non-empty strings. |
| `Schedule.NonBlankSingle` | server.js:278 | A lone string is kept exactly when it is not empty. |
| `Schedule.NonBlankAppend` | server.js:278 | The strings kept from consecutive lists follow each other in order. So the order and the repetitions of the list are preserved. |
| `Schedule.CountriesOf` | server.js:278 | Every country is non-blank, contains no comma and has no white space at either end. Every non-blank trimmed piece appears, and only trimmed pieces appear. |
| `Schedule.CountriesOfPieces` | server.js:278 | For a list written as comma-free pieces joined by commas, the countries are the trimmed non-blank pieces, in the written order and with their repetitions. |
| `Schedule.RepeatedCountry` | server.js:278-281 | `vn,vn` gives `vn` twice, so the job checks that country twice. |
| `Schedule.ParseCountries` | server.js:278 | A non-empty `COUNTRIES` is parsed as above. A missing or empty one falls back to the list `vn,us`. |
| `Schedule.DefaultCountries` | server.js:278 | Without `COUNTRIES` the job checks `vn`, then `us`. |
| `Schedule.CycleLanguage` | server.js:280 | The page language is `vi` exactly for `vn`, otherwise `en`. |

## Findings

| source | as written | input that shows it | evidently intended | confidence | as-written member | corrected member |
|---|---|---|---|---|---|---|
| server.js:195-201 | `prev` is the value of `saveHistory`, which has no `return`. So `prevLatest` is always null and any version counts as a change. | The stored record already has lookup version 1.0, and the check sees 1.0 again. `changed` is true and an alert is sent, on every scheduled run. | Compare against the record loaded before the merge. Alert only when the version differs from the stored one. | high; not executed | `Reconcile.AsWrittenRealerts` | `Reconcile.CorrectedRealertsOnlyOnRollback` |

## Left out

- HTTP requests are not modelled: the iTunes lookup and the page fetch (server.js:35-39, 46-55). Their results are parameters. A failed lookup is `None`. A thrown page fetch is `scraped = None`.
- Cheerio parsing and CSS selector evaluation are not modelled (server.js:58, 63-111). Each tier receives the strings its queries return.
- The Vercel KV get/set is not modelled (server.js:149, 156-161). The stored record is an input and an output value. The key `history_<appId>_<country>` is not modelled.
- The Discord transport is not modelled (server.js:167-179). The model builds the alert; whether a webhook is configured or the post fails is not modelled.
- Express routes and views are not modelled (server.js:226-266). Their one decision path, saving with a missing scrape (server.js:253-255), is covered by `Snapshot.scraped = None`.
- Cron scheduling, the timezone, environment defaults and logging are not modelled (server.js:273-289). Only the country list and the language choice are modelled.
- `checkAndSave`'s catch of store failures is not modelled (server.js:219-221). Only the failure of the page fetch is modelled.
- Lookup fields are modelled as strings. JSON numbers or other types in `version`, `trackName` or `releaseNotes` are not modelled.
- Tier 1 reads the `datetime` attribute of the first `time[datetime]` element, but the date fallback concatenates the text of every `time`. Both arrive as given strings.
- `Reconcile.BuildAlert`: truncation counts Unicode scalar values, while JavaScript's `substring` counts UTF-16 code units. The two differ for notes with characters outside the Basic Multilingual Plane.
- `Reconcile.BuildAlert`: the embed timestamp and the record's `updatedAt` share one `now`. The source reads the clock twice.
- `Reconcile.CheckAndSave`: the alert is modelled as built and returned; its delivery is not modelled. In the source, delivery is awaited, and a failure is logged and ignored, so the verdict never depends on it (server.js:173-178, 207).
- Checks on one key are modelled as running one after another (`History.Replay`). The cron job (server.js:275-281), `POST /api/refresh` (server.js:262-265) and `GET /api/changelog` (server.js:251-256) can run `saveHistory` on the same key at the same time. `saveHistory` loads at server.js:124 and writes at server.js:149 with awaits in between, so two overlapping checks can read the same record, and the later write can drop an entry the earlier one prepended. The store's last-writer-wins race is not modelled.

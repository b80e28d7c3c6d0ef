/** The history extractor of `fetchFullHistory`: four tiers of selectors tried
    in a fixed order, the first one that yields an entry winning. The DOM
    queries are given as the strings they return: `.text()` as a string (empty
    when nothing matched), `.attr(..)` and `.html()` as optional strings. */
module Extract {
  import opened Wrappers
  import opened Types
  import JsString
  import VersionToken
  import LineBreaks

  /** Tier 1, inside `section.whats-new`: the text of `.whats-new__latest__version`,
      the `datetime` attribute of `time[datetime]`, the text of `time`, and the
      markup and text of `.we-truncate[dir] p`. */
  datatype WhatsNew = WhatsNew(
    versionText: string,
    timeDatetime: Option<string>,
    timeText: string,
    notesHtml: Option<string>,
    notesText: string)

  /** Tier 2, one `.version-history__item`: the texts of
      `.version-history__item__version-number` and `h4`, the `time` element's
      `datetime` attribute and text, and the texts of
      `.version-history__item__release-notes` and `.whats-new__content`. */
  datatype HistoryItem = HistoryItem(
    versionNumberText: string,
    headingText: string,
    timeDatetime: Option<string>,
    timeText: string,
    releaseNotesText: string,
    contentText: string)

  /** Tier 3, one `.whats-new__item, .release-note, .version`: the texts of
      `.whats-new__title, h4, .version-number`, the `time` element's `datetime`
      attribute and text, and the text of `.whats-new__content, .release-notes, p`. */
  datatype LooseItem = LooseItem(
    titleText: string,
    timeDatetime: Option<string>,
    timeText: string,
    notesText: string)

  /** Everything the cascade reads from one page. `whatsNew` is None when the
      page has no `section.whats-new`; the two descriptions are the `content`
      of `meta[name="description"]` and `meta[property="og:description"]`. */
  datatype Page = Page(
    whatsNew: Option<WhatsNew>,
    historyItems: seq<HistoryItem>,
    looseItems: seq<LooseItem>,
    metaDescription: Option<string>,
    ogDescription: Option<string>)

  /** A present string is never empty. */
  predicate NullIfEmpty(o: Option<string>) {
    o.Some? ==> o.value != ""
  }

  /** The entries the cascade emits: empty strings are null in `version` and
      `date`, and there is a version or notes. Notes are non-empty except in an
      entry with neither version nor date, which only the description fallback makes. */
  predicate Emitted(e: Entry) {
    && NullIfEmpty(e.version)
    && NullIfEmpty(e.date)
    && (e.version.Some? || e.notes.Some?)
    && (e.notes == Some("") ==> e.version.None? && e.date.None?)
  }

  /** `{ version: version || null, date: date || null, notes: notes || null }`. */
  function Candidate(version: string, date: string, notes: string): (e: Entry)
    ensures NullIfEmpty(e.version) && NullIfEmpty(e.date) && NullIfEmpty(e.notes)
    ensures e.version.Some? || e.notes.Some? <==> version != "" || notes != ""
    ensures e.version.Some? ==> e.version.value == version
    ensures e.date.Some? ==> e.date.value == date
    ensures e.notes.Some? ==> e.notes.value == notes
    ensures version != "" ==> e.version.Some?
    ensures date != "" ==> e.date.Some?
    ensures notes != "" ==> e.notes.Some?
  {
    Entry(JsString.OrNull(version), JsString.OrNull(date), JsString.OrNull(notes))
  }

  /** The `if (version || notes) versions.push(..)` guard of tiers 1 to 3. */
  predicate Kept(e: Entry) {
    e.version.Some? || e.notes.Some?
  }

  /** The candidates that pass the guard, in document order. */
  function KeepEntries(cands: seq<Entry>): (r: seq<Entry>)
    ensures |r| <= |cands|
    ensures forall e :: e in r ==> e in cands && Kept(e)
    ensures forall e :: e in cands && Kept(e) ==> e in r
    decreases |cands|
  {
    if cands == [] then []
    else if Kept(cands[0]) then [cands[0]] + KeepEntries(cands[1..])
    else KeepEntries(cands[1..])
  }

  /** A lone candidate is kept exactly when it passes the guard. */
  lemma KeepEntriesSingle(e: Entry)
    ensures KeepEntries([e]) == (if Kept(e) then [e] else [])
  {
    assert [e][1..] == [];
  }

  /** The guard looks at each candidate on its own: the entries of a
      concatenation are those of its parts, in order. With `KeepEntriesSingle`
      this fixes the order and the repetitions of the kept candidates to be
      those of the document. */
  lemma {:induction false} KeepEntriesAppend(a: seq<Entry>, b: seq<Entry>)
    ensures KeepEntries(a + b) == KeepEntries(a) + KeepEntries(b)
    decreases |a|
  {
    if a == [] {
      assert a + b == b;
    } else {
      var ab := a + b;
      assert ab[0] == a[0] && ab[1..] == a[1..] + b;
      KeepEntriesAppend(a[1..], b);
      if Kept(a[0]) {
        calc {
          KeepEntries(ab);
          [a[0]] + KeepEntries(a[1..] + b);
          [a[0]] + (KeepEntries(a[1..]) + KeepEntries(b));
          ([a[0]] + KeepEntries(a[1..])) + KeepEntries(b);
        }
      }
    }
  }

  /** Nothing is kept exactly when no candidate passes the guard; otherwise the
      first entry is the first candidate that passes. */
  lemma {:induction false} KeepEntriesHead(cands: seq<Entry>)
    ensures KeepEntries(cands) == [] <==> forall k :: 0 <= k < |cands| ==> !Kept(cands[k])
    ensures KeepEntries(cands) != [] ==>
      exists k :: 0 <= k < |cands| && Kept(cands[k]) && (forall j :: 0 <= j < k ==> !Kept(cands[j]))
        && KeepEntries(cands)[0] == cands[k]
    decreases |cands|
  {
    if cands != [] && !Kept(cands[0]) {
      KeepEntriesHead(cands[1..]);
      assert forall k :: 1 <= k < |cands| ==> cands[k] == cands[1..][k - 1];
      if KeepEntries(cands) != [] {
        var k :| 0 <= k < |cands[1..]| && Kept(cands[1..][k]) && (forall j :: 0 <= j < k ==> !Kept(cands[1..][j]))
          && KeepEntries(cands)[0] == cands[1..][k];
        assert forall j :: 0 <= j < k + 1 ==> !Kept(cands[j]);
      }
    }
  }

  /** The notes of the newest layout: the `<br>`-rewritten markup when there is
      markup, the plain text otherwise, trimmed either way. */
  function WhatsNewNotes(w: WhatsNew): (n: string)
    ensures JsString.Truthy(w.notesHtml) ==> n == JsString.Trim(LineBreaks.ReplaceBreaks(w.notesHtml.value))
    ensures !JsString.Truthy(w.notesHtml) ==> n == JsString.Trim(w.notesText)
  {
    if JsString.Truthy(w.notesHtml) then JsString.Trim(LineBreaks.ReplaceBreaks(w.notesHtml.value))
    else JsString.Trim(w.notesText)
  }

  /** The single candidate of the newest layout; it passes the guard exactly
      when the version label or the notes are not blank. */
  function WhatsNewCandidate(w: WhatsNew): (e: Entry)
    ensures Kept(e) <==> JsString.Trim(w.versionText) != "" || WhatsNewNotes(w) != ""
  {
    var version := VersionToken.VersionFromLabel(JsString.Trim(w.versionText));
    var date := JsString.AttrOr(w.timeDatetime, JsString.Trim(w.timeText));
    Candidate(version, date, WhatsNewNotes(w))
  }

  /** Which field the newest layout's entry takes: the version from the trimmed
      label (null exactly when the label is blank), the `datetime` attribute
      before the time text, and the notes. */
  lemma WhatsNewFields(w: WhatsNew)
    ensures var e := WhatsNewCandidate(w);
      && e.version == JsString.OrNull(VersionToken.VersionFromLabel(JsString.Trim(w.versionText)))
      && (e.version.None? <==> JsString.Trim(w.versionText) == "")
      && (JsString.Truthy(w.timeDatetime) ==> e.date == w.timeDatetime)
      && (!JsString.Truthy(w.timeDatetime) ==> e.date == JsString.OrNull(JsString.Trim(w.timeText)))
      && e.notes == JsString.OrNull(WhatsNewNotes(w))
  {
  }

  /** Tier 1. */
  function Tier1(w: Option<WhatsNew>): (r: seq<Entry>)
    ensures |r| <= 1
    ensures w.None? ==> r == []
    ensures forall e :: e in r ==> Emitted(e)
  {
    if w.None? then [] else KeepEntries([WhatsNewCandidate(w.value)])
  }

  /** Tier 1 yields its entry exactly when there is a `whats-new` section whose
      version label or notes are not blank; notes alone are enough. */
  lemma Tier1Entry(w: Option<WhatsNew>)
    ensures Tier1(w) != [] <==>
      w.Some? && (JsString.Trim(w.value.versionText) != "" || WhatsNewNotes(w.value) != "")
    ensures Tier1(w) != [] ==> Tier1(w) == [WhatsNewCandidate(w.value)]
  {
    if w.Some? {
      KeepEntriesSingle(WhatsNewCandidate(w.value));
    }
  }

  /** `.each` over matched items: one candidate per item, in document order. */
  function MapItems<T>(f: T -> Entry, items: seq<T>): (cs: seq<Entry>)
    ensures |cs| == |items|
    ensures forall k :: 0 <= k < |items| ==> cs[k] == f(items[k])
  {
    seq(|items|, k requires 0 <= k < |items| => f(items[k]))
  }

  /** The candidates of consecutive item lists follow each other. */
  lemma MapItemsAppend<T>(f: T -> Entry, a: seq<T>, b: seq<T>)
    ensures MapItems(f, a + b) == MapItems(f, a) + MapItems(f, b)
  {
    var ca, cb, cab := MapItems(f, a), MapItems(f, b), MapItems(f, a + b);
    forall k | 0 <= k < |cab|
      ensures cab[k] == (ca + cb)[k]
    {
      if k < |a| { assert (a + b)[k] == a[k]; } else { assert (a + b)[k] == b[k - |a|]; }
    }
  }

  /** `KeepEntriesHead` for candidates made item by item, when an item's
      candidate passes the guard exactly when `P` holds of the item. */
  lemma KeepMappedHead<T>(f: T -> Entry, P: T -> bool, items: seq<T>)
    requires forall x :: Kept(f(x)) <==> P(x)
    ensures KeepEntries(MapItems(f, items)) == [] <==> forall k :: 0 <= k < |items| ==> !P(items[k])
    ensures KeepEntries(MapItems(f, items)) != [] ==>
      exists k :: 0 <= k < |items| && P(items[k]) && (forall j :: 0 <= j < k ==> !P(items[j]))
        && KeepEntries(MapItems(f, items))[0] == f(items[k])
  {
    var cs := MapItems(f, items);
    KeepEntriesHead(cs);
    if KeepEntries(cs) != [] {
      var k :| 0 <= k < |cs| && Kept(cs[k]) && (forall j :: 0 <= j < k ==> !Kept(cs[j]))
        && KeepEntries(cs)[0] == cs[k];
      assert P(items[k]) && forall j :: 0 <= j < k ==> !P(items[j]);
    }
  }

  /** Some version or notes field of a legacy history item is not blank. */
  predicate HistoryHasText(it: HistoryItem) {
    || JsString.Trim(it.versionNumberText) != ""
    || JsString.Trim(it.headingText) != ""
    || JsString.Trim(it.releaseNotesText) != ""
    || JsString.Trim(it.contentText) != ""
  }

  /** A legacy item's candidate; it passes the guard exactly when the item has text. */
  function HistoryCandidate(it: HistoryItem): (e: Entry)
    ensures Kept(e) <==> HistoryHasText(it)
  {
    Candidate(
      JsString.OrElse(JsString.Trim(it.versionNumberText), JsString.Trim(it.headingText)),
      JsString.AttrOr(it.timeDatetime, JsString.Trim(it.timeText)),
      JsString.OrElse(JsString.Trim(it.releaseNotesText), JsString.Trim(it.contentText)))
  }

  /** Which field a legacy item's entry takes: the version-number text before
      the `h4` heading, the `datetime` attribute before the time text, the
      release-notes text before the content text. */
  lemma HistoryFields(it: HistoryItem)
    ensures var e := HistoryCandidate(it);
      && (JsString.Trim(it.versionNumberText) != "" ==> e.version == Some(JsString.Trim(it.versionNumberText)))
      && (JsString.Trim(it.versionNumberText) == "" ==> e.version == JsString.OrNull(JsString.Trim(it.headingText)))
      && (JsString.Truthy(it.timeDatetime) ==> e.date == it.timeDatetime)
      && (!JsString.Truthy(it.timeDatetime) ==> e.date == JsString.OrNull(JsString.Trim(it.timeText)))
      && (JsString.Trim(it.releaseNotesText) != "" ==> e.notes == Some(JsString.Trim(it.releaseNotesText)))
      && (JsString.Trim(it.releaseNotesText) == "" ==> e.notes == JsString.OrNull(JsString.Trim(it.contentText)))
  {
  }

  /** The candidates of the legacy items, one per item, in document order. */
  function HistoryCandidates(items: seq<HistoryItem>): (cs: seq<Entry>)
    ensures |cs| == |items|
    ensures forall k :: 0 <= k < |items| ==> cs[k] == HistoryCandidate(items[k])
  {
    MapItems(HistoryCandidate, items)
  }

  lemma HistoryCandidatesAppend(a: seq<HistoryItem>, b: seq<HistoryItem>)
    ensures HistoryCandidates(a + b) == HistoryCandidates(a) + HistoryCandidates(b)
  {
    MapItemsAppend(HistoryCandidate, a, b);
  }

  /** Tier 2: one entry per history item that has a version or notes. */
  function Tier2(items: seq<HistoryItem>): (r: seq<Entry>)
    ensures |r| <= |items|
    ensures forall e :: e in r ==> Emitted(e)
  {
    KeepEntries(HistoryCandidates(items))
  }

  /** Tier 2 item by item: the entries of consecutive items follow each other
      in document order. */
  lemma Tier2Append(a: seq<HistoryItem>, b: seq<HistoryItem>)
    ensures Tier2(a + b) == Tier2(a) + Tier2(b)
  {
    HistoryCandidatesAppend(a, b);
    KeepEntriesAppend(HistoryCandidates(a), HistoryCandidates(b));
  }

  /** A lone item yields its candidate exactly when it has text. */
  lemma Tier2Single(it: HistoryItem)
    ensures Tier2([it]) == (if HistoryHasText(it) then [HistoryCandidate(it)] else [])
  {
    assert HistoryCandidates([it]) == [HistoryCandidate(it)];
    KeepEntriesSingle(HistoryCandidate(it));
  }

  /** Tier 2 is empty exactly when no item has text, so that the cascade falls
      through; otherwise its first entry is the candidate of the first item with text. */
  lemma Tier2Head(items: seq<HistoryItem>)
    ensures Tier2(items) == [] <==> forall k :: 0 <= k < |items| ==> !HistoryHasText(items[k])
    ensures Tier2(items) != [] ==>
      exists k :: 0 <= k < |items| && HistoryHasText(items[k]) && (forall j :: 0 <= j < k ==> !HistoryHasText(items[j]))
        && Tier2(items)[0] == HistoryCandidate(items[k])
  {
    KeepMappedHead(HistoryCandidate, HistoryHasText, items);
  }

  /** Some title or notes field of a loosely matched item is not blank. */
  predicate LooseHasText(it: LooseItem) {
    JsString.Trim(it.titleText) != "" || JsString.Trim(it.notesText) != ""
  }

  /** A loose item's candidate; it passes the guard exactly when the item has text. */
  function LooseCandidate(it: LooseItem): (e: Entry)
    ensures Kept(e) <==> LooseHasText(it)
  {
    Candidate(
      JsString.Trim(it.titleText),
      JsString.AttrOr(it.timeDatetime, JsString.Trim(it.timeText)),
      JsString.Trim(it.notesText))
  }

  /** Which field a loose item's entry takes: the title text as version, the
      `datetime` attribute before the time text, the notes text. */
  lemma LooseFields(it: LooseItem)
    ensures var e := LooseCandidate(it);
      && e.version == JsString.OrNull(JsString.Trim(it.titleText))
      && (JsString.Truthy(it.timeDatetime) ==> e.date == it.timeDatetime)
      && (!JsString.Truthy(it.timeDatetime) ==> e.date == JsString.OrNull(JsString.Trim(it.timeText)))
      && e.notes == JsString.OrNull(JsString.Trim(it.notesText))
  {
  }

  /** The candidates of the loose items, one per item, in document order. */
  function LooseCandidates(items: seq<LooseItem>): (cs: seq<Entry>)
    ensures |cs| == |items|
    ensures forall k :: 0 <= k < |items| ==> cs[k] == LooseCandidate(items[k])
  {
    MapItems(LooseCandidate, items)
  }

  lemma LooseCandidatesAppend(a: seq<LooseItem>, b: seq<LooseItem>)
    ensures LooseCandidates(a + b) == LooseCandidates(a) + LooseCandidates(b)
  {
    MapItemsAppend(LooseCandidate, a, b);
  }

  /** Tier 3: one entry per loosely matched item that has a version or notes. */
  function Tier3(items: seq<LooseItem>): (r: seq<Entry>)
    ensures |r| <= |items|
    ensures forall e :: e in r ==> Emitted(e)
  {
    KeepEntries(LooseCandidates(items))
  }

  /** Tier 3 item by item: the entries of consecutive items follow each other
      in document order. */
  lemma Tier3Append(a: seq<LooseItem>, b: seq<LooseItem>)
    ensures Tier3(a + b) == Tier3(a) + Tier3(b)
  {
    LooseCandidatesAppend(a, b);
    KeepEntriesAppend(LooseCandidates(a), LooseCandidates(b));
  }

  /** A lone item yields its candidate exactly when it has text. */
  lemma Tier3Single(it: LooseItem)
    ensures Tier3([it]) == (if LooseHasText(it) then [LooseCandidate(it)] else [])
  {
    assert LooseCandidates([it]) == [LooseCandidate(it)];
    KeepEntriesSingle(LooseCandidate(it));
  }

  /** Tier 3 is empty exactly when no item has text; otherwise its first entry
      is the candidate of the first item with text. */
  lemma Tier3Head(items: seq<LooseItem>)
    ensures Tier3(items) == [] <==> forall k :: 0 <= k < |items| ==> !LooseHasText(items[k])
    ensures Tier3(items) != [] ==>
      exists k :: 0 <= k < |items| && LooseHasText(items[k]) && (forall j :: 0 <= j < k ==> !LooseHasText(items[j]))
        && Tier3(items)[0] == LooseCandidate(items[k])
  {
    KeepMappedHead(LooseCandidate, LooseHasText, items);
  }

  /** `$('meta[name="description"]').attr('content') || $('meta[property="og:description"]').attr('content') || ''`. */
  function MetaNotes(description: Option<string>, og: Option<string>): (m: string)
    ensures JsString.Truthy(description) ==> m == description.value
    ensures !JsString.Truthy(description) && JsString.Truthy(og) ==> m == og.value
    ensures m == "" <==> !JsString.Truthy(description) && !JsString.Truthy(og)
  {
    JsString.AttrOr(description, JsString.AttrOr(og, ""))
  }

  /** Tier 4: the page description as the notes of an entry without version or date. */
  function Tier4(description: Option<string>, og: Option<string>): (r: seq<Entry>)
    ensures |r| <= 1
    ensures r != [] <==> JsString.Truthy(description) || JsString.Truthy(og)
    ensures JsString.Truthy(description) ==> r == [Entry(None, None, Some(JsString.Trim(description.value)))]
    ensures !JsString.Truthy(description) && JsString.Truthy(og) ==> r == [Entry(None, None, Some(JsString.Trim(og.value)))]
    ensures forall e :: e in r ==> Emitted(e)
  {
    var meta := MetaNotes(description, og);
    if meta != "" then [Entry(None, None, Some(JsString.Trim(meta)))] else []
  }

  /** The tiers' outputs in priority order. */
  function Tiers(p: Page): (ts: seq<seq<Entry>>)
    ensures |ts| == 4
  {
    [Tier1(p.whatsNew), Tier2(p.historyItems), Tier3(p.looseItems), Tier4(p.metaDescription, p.ogDescription)]
  }

  /** The first non-empty output, or the empty sequence when all are empty. */
  function FirstNonEmpty(ts: seq<seq<Entry>>): (r: seq<Entry>)
    ensures r == [] <==> forall k :: 0 <= k < |ts| ==> ts[k] == []
    ensures r != [] ==> exists k :: 0 <= k < |ts| && r == ts[k] && forall j :: 0 <= j < k ==> ts[j] == []
    decreases |ts|
  {
    if ts == [] then []
    else if ts[0] != [] then ts[0]
    else
      var r := FirstNonEmpty(ts[1..]);
      assert forall k :: 1 <= k < |ts| ==> ts[k] == ts[1..][k - 1];
      r
  }

  /** The body of `fetchFullHistory` after the page has been parsed. */
  function Cascade(p: Page): (r: seq<Entry>)
    ensures r == [] ==>
      && Tier1(p.whatsNew) == []
      && Tier2(p.historyItems) == []
      && Tier3(p.looseItems) == []
      && Tier4(p.metaDescription, p.ogDescription) == []
    ensures r != [] ==> exists k :: 0 <= k < 4 && r == Tiers(p)[k] && forall j :: 0 <= j < k ==> Tiers(p)[j] == []
    ensures forall e :: e in r ==> Emitted(e)
  {
    var t1, t2 := Tier1(p.whatsNew), Tier2(p.historyItems);
    var t3, t4 := Tier3(p.looseItems), Tier4(p.metaDescription, p.ogDescription);
    var ts := Tiers(p);
    assert ts == [t1, t2, t3, t4];
    var r := FirstNonEmpty(ts);
    assert r != [] ==> exists k :: 0 <= k < 4 && r == ts[k];
    assert r == [] || r == t1 || r == t2 || r == t3 || r == t4;
    assert r == [] ==> ts[0] == [] && ts[1] == [] && ts[2] == [] && ts[3] == [];
    r
  }

  /** When the first three tiers find nothing, the page description decides:
      one entry without version or date holding the trimmed description (the
      `description` meta preferred to `og:description`), or nothing at all. */
  lemma FallbackDepth(p: Page)
    requires forall k :: 0 <= k < 3 ==> Tiers(p)[k] == []
    ensures |Cascade(p)| <= 1
    ensures Cascade(p) != [] <==> JsString.Truthy(p.metaDescription) || JsString.Truthy(p.ogDescription)
    ensures JsString.Truthy(p.metaDescription) ==>
      Cascade(p) == [Entry(None, None, Some(JsString.Trim(p.metaDescription.value)))]
    ensures !JsString.Truthy(p.metaDescription) && JsString.Truthy(p.ogDescription) ==>
      Cascade(p) == [Entry(None, None, Some(JsString.Trim(p.ogDescription.value)))]
  {
    var ts := Tiers(p);
    assert ts[3] == Tier4(p.metaDescription, p.ogDescription);
    if Cascade(p) != [] {
      var k :| 0 <= k < 4 && Cascade(p) == ts[k] && forall j :: 0 <= j < k ==> ts[j] == [];
      assert k == 3;
    }
  }

  /** The newest layout yields its entry whenever the version label is not
      blank, with the leftmost dotted token of the label as the version, or the
      whole trimmed label when it holds no such token. */
  lemma WhatsNewVersion(w: WhatsNew)
    ensures var t := JsString.Trim(w.versionText);
      && (t != "" ==> |Tier1(Some(w))| == 1)
      && (VersionToken.HasToken(t) ==>
            && Tier1(Some(w))[0].version == Some(VersionToken.VersionFromLabel(t))
            && VersionToken.IsDottedToken(Tier1(Some(w))[0].version.value))
      && (t != "" && !VersionToken.HasToken(t) ==> Tier1(Some(w))[0].version == Some(t))
      && (t == "" ==> forall e :: e in Tier1(Some(w)) ==> e.version.None?)
  {
    var t := JsString.Trim(w.versionText);
    var c := WhatsNewCandidate(w);
    if VersionToken.HasToken(t) {
      var i, e :| 0 <= i < e <= |t| && VersionToken.IsDottedToken(t[i..e]);
      assert t != "";
    }
    if t != "" {
      assert Kept(c);
      assert KeepEntries([c]) == [c] + KeepEntries([]);
    }
  }

  /** The address `fetchFullHistory` requests. */
  function PageUrl(appId: string, country: string, lang: string): string {
    "https://apps.apple.com/" + country + "/app/id" + appId + "?l=" + lang
  }

  /** `fetchFullHistory` once the page has been fetched and parsed. */
  function FetchFullHistory(appId: string, country: string, lang: string, p: Page): (x: Extraction)
    ensures x.url == PageUrl(appId, country, lang)
    ensures x.versions == Cascade(p)
  {
    Extraction(PageUrl(appId, country, lang), Cascade(p))
  }
}

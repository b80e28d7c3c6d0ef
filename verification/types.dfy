/** The records the tracker passes around and stores. */
module Types {
  import opened Wrappers

  /** One observed release: `{ version, date, notes }`, each possibly null. */
  datatype Entry = Entry(version: Option<string>, date: Option<string>, notes: Option<string>)

  /** The fields of the first iTunes lookup result the tracker reads. */
  datatype Lookup = Lookup(trackName: Option<string>, version: Option<string>, releaseNotes: Option<string>)

  /** What `fetchFullHistory` returns: the page address and the entries, most recent first. */
  datatype Extraction = Extraction(url: string, versions: seq<Entry>)

  /** The `fullData` of one check: the lookup result and the scrape, either of which may be null. */
  datatype Snapshot = Snapshot(lookup: Option<Lookup>, scraped: Option<Extraction>)

  /** The value stored under `history_<appId>_<country>`:
      `fullData.scraped.versions`, `fullData.lookup`, `appId`, `country` and `updatedAt`. */
  datatype Record = Record(versions: seq<Entry>, lookup: Option<Lookup>, appId: string, country: string, updatedAt: string)
}

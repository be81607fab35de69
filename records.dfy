/**
 * A search result is a Python dictionary from field names to text. Adapters
 * always fill the five keys below, but the consumers (deduplication, the CSV
 * writer, grouping) read them with `dict.get` and a default, so a record is
 * modelled as a map in which any key may be missing.
 */
module Records {

  type Record = map<string, string>

  /** `r.get(key, default)`. */
  function Field(r: Record, key: string, default: string): (v: string)
    ensures key in r ==> v == r[key]
    ensures key !in r ==> v == default
  {
    if key in r then r[key] else default
  }

  /** The deduplication key: `result.get('url', '')`. */
  function Url(r: Record): string {
    Field(r, "url", "")
  }

  /** The normalised record every adapter builds. */
  function MakeRecord(source: string, title: string, description: string, url: string, timestamp: string): (r: Record)
    ensures r.Keys == {"source", "title", "description", "url", "timestamp"}
    ensures Field(r, "source", "") == source && Field(r, "title", "") == title
    ensures Field(r, "description", "") == description && Url(r) == url
    ensures Field(r, "timestamp", "") == timestamp
  {
    map["source" := source, "title" := title, "description" := description,
        "url" := url, "timestamp" := timestamp]
  }
}

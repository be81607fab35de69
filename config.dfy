/** The constants of config.py that the modelled code reads. */
module Config {

  /** Hard cap on results per source. */
  const MaxResultsLimit: int := 50

  const MinKeywordLength: nat := 2
  const MaxKeywordLength: nat := 200

  /** Every source name the tool accepts, in the order of config.py. */
  const AvailableSources: seq<string> :=
    ["wikipedia", "stackoverflow", "github", "googlenews", "hackernews"]

  /** Sources searched when the user names none. */
  const DefaultSources: seq<string> := ["wikipedia", "github", "stackoverflow"]
}

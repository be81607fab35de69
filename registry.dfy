/**
 * The source registry: the searcher classes `_get_searcher` knows, the
 * `source_name` each one stamps on its results, and which requested
 * sources end up submitted to the worker pool.
 */
module Registry {
  import opened Wrappers
  import Config

  /** One searcher class per source. */
  datatype SourceId = Wikipedia | GitHub | StackOverflow | HackerNews | GoogleNews

  /** The `source_name` each searcher's constructor sets. */
  function SourceName(id: SourceId): string {
    match id
    case Wikipedia => "wikipedia"
    case GitHub => "github"
    case StackOverflow => "stackoverflow"
    case HackerNews => "hackernews"
    case GoogleNews => "googlenews"
  }

  /**
   * The lookup in `_get_searcher`'s table: exactly the configured source
   * names resolve, each to the searcher that reports itself under that name.
   */
  function Resolve(name: string): (r: Option<SourceId>)
    ensures r.Some? <==> name in Config.AvailableSources
    ensures r.Some? ==> SourceName(r.value) == name
  {
    if name == "wikipedia" then Some(Wikipedia)
    else if name == "github" then Some(GitHub)
    else if name == "stackoverflow" then Some(StackOverflow)
    else if name == "hackernews" then Some(HackerNews)
    else if name == "googlenews" then Some(GoogleNews)
    else None
  }

  /**
   * The sources `search` submits a searcher for, in request order: one per
   * requested name that resolves, repetitions included.
   */
  function Submitted(sources: seq<string>): (s: seq<string>)
    ensures |s| <= |sources|
    ensures forall i :: 0 <= i < |s| ==> s[i] in Config.AvailableSources
    decreases |sources|
  {
    if sources == [] then []
    else (if Resolve(sources[0]).Some? then [sources[0]] else []) + Submitted(sources[1..])
  }

  /** Once the sources are validated, every one of them is submitted, once per mention. */
  lemma {:induction false} ValidSourcesAllSubmitted(sources: seq<string>)
    requires forall i :: 0 <= i < |sources| ==> sources[i] in Config.AvailableSources
    ensures Submitted(sources) == sources
    decreases |sources|
  {
    if sources != [] {
      ValidSourcesAllSubmitted(sources[1..]);
      assert [sources[0]] + sources[1..] == sources;
    }
  }
}

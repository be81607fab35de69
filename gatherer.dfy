/**
 * The orchestrator, `WebIntelligenceGatherer`: validation at construction,
 * the searcher lookup, and `search`, which collects the results of the
 * submitted searches in completion order and deduplicates them by URL. The
 * worker pool is not modelled; the order in which searches complete, and
 * what each one returned or raised, is given as a sequence of completions.
 */
module Orchestrator {
  import opened Wrappers
  import opened Config
  import opened Records
  import opened Registry
  import opened Validation
  import opened Searchers
  import opened Deduplication

  /** What one submitted search produced: its result list, or an exception. */
  datatype Outcome = Returned(records: seq<Record>) | Raised(message: string)

  /** One completed future, paired with the source it was submitted for. */
  datatype Completion = Completion(source: string, outcome: Outcome)

  /** The sources of `cs`, in completion order. */
  function CompletedSources(cs: seq<Completion>): (s: seq<string>)
    ensures |s| == |cs|
    ensures forall i :: 0 <= i < |cs| ==> s[i] == cs[i].source
    decreases |cs|
  {
    if cs == [] then [] else [cs[0].source] + CompletedSources(cs[1..])
  }

  /** What a completion adds to `all_results`. */
  function Contribution(c: Completion): seq<Record> {
    match c.outcome
    case Returned(rs) => rs
    case Raised(_) => []
  }

  /** `all_results` after the collection loop: the returned lists, concatenated in completion order. */
  function Collected(cs: seq<Completion>): seq<Record>
    decreases |cs|
  {
    if cs == [] then []
    else Collected(cs[..|cs| - 1]) + Contribution(cs[|cs| - 1])
  }

  /** One more completion adds its contribution at the end. */
  lemma CollectedSnoc(cs: seq<Completion>, c: Completion)
    ensures Collected(cs + [c]) == Collected(cs) + Contribution(c)
  {
    assert (cs + [c])[..|cs|] == cs;
  }

  /** Concatenation is associative. */
  lemma AppendAssoc<T>(x: seq<T>, y: seq<T>, z: seq<T>)
    ensures (x + y) + z == x + (y + z)
  {
  }

  /** Collecting two runs of completions is collecting each in turn. */
  lemma {:induction false} CollectedAppend(a: seq<Completion>, b: seq<Completion>)
    ensures Collected(a + b) == Collected(a) + Collected(b)
    decreases |b|
  {
    if b == [] {
      assert a + b == a;
    } else {
      var pre, last := b[..|b| - 1], b[|b| - 1];
      var ap := a + pre;
      assert b == pre + [last];
      AppendAssoc(a, pre, [last]);
      CollectedSnoc(ap, last);
      CollectedSnoc(pre, last);
      CollectedAppend(a, pre);
      AppendAssoc(Collected(a), Collected(pre), Contribution(last));
    }
  }

  /** A search that raised adds nothing and does not stop the others. */
  lemma RaisedSearchIsSkipped(before: seq<Completion>, source: string, message: string, after: seq<Completion>)
    ensures Collected(before + [Completion(source, Raised(message))] + after)
         == Collected(before) + Collected(after)
  {
    var failed := [Completion(source, Raised(message))];
    assert Collected(failed) == [] by {
      assert failed[..0] == [];
      assert Contribution(failed[0]) == [];
    }
    CollectedAppend(before + failed, after);
    CollectedAppend(before, failed);
    assert before + failed + after == (before + failed) + after;
    assert Collected(before + failed) == Collected(before);
  }

  /** When every search raised, nothing is collected. */
  lemma {:induction false} AllRaisedCollectsNothing(cs: seq<Completion>)
    requires forall i :: 0 <= i < |cs| ==> cs[i].outcome.Raised?
    ensures Collected(cs) == []
    decreases |cs|
  {
    if cs != [] {
      AllRaisedCollectsNothing(cs[..|cs| - 1]);
    }
  }

  /** With every returned list capped at `m`, each search contributes at most `m` results. */
  lemma {:induction false} CollectedBound(cs: seq<Completion>, m: nat)
    requires forall i :: 0 <= i < |cs| ==> |Contribution(cs[i])| <= m
    ensures |Collected(cs)| <= m * |cs|
    decreases |cs|
  {
    if cs != [] {
      var n := |cs| - 1;
      CollectedBound(cs[..n], m);
      assert forall i :: 0 <= i < n ==> cs[..n][i] == cs[i];
      assert |Collected(cs)| == |Collected(cs[..n])| + |Contribution(cs[n])|;
      assert m * n + m == m * |cs|;
    }
  }

  /**
   * End to end: when every search that returned gave back its searcher's
   * capped prefix of what it gathered, each search contributes at most the
   * capped request, and never more than the hard limit.
   */
  lemma CappedSearchesBound(cs: seq<Completion>, gathered: seq<seq<Record>>, requested: int)
    requires 0 <= requested
    requires |gathered| == |cs|
    requires forall i :: 0 <= i < |cs| && cs[i].outcome.Returned? ==>
               cs[i].outcome.records == PrefixSlice(gathered[i], Cap(requested))
    ensures |Collected(cs)| <= Cap(requested) * |cs|
    ensures |Collected(cs)| <= MaxResultsLimit * |cs|
  {
    var m: nat := Cap(requested);
    forall i | 0 <= i < |cs|
      ensures |Contribution(cs[i])| <= m
    {
      if cs[i].outcome.Returned? {
        AdapterReturnsCappedPrefix(gathered[i], requested);
      }
    }
    CollectedBound(cs, m);
    ScaleBound(m, MaxResultsLimit, |cs|);
  }

  lemma {:induction false} ScaleBound(a: nat, b: nat, n: nat)
    requires a <= b
    ensures a * n <= b * n
    decreases n
  {
    if n > 0 {
      ScaleBound(a, b, n - 1);
      assert a * n == a * (n - 1) + a;
      assert b * n == b * (n - 1) + b;
    }
  }

  class Gatherer {
    const keyword: string
    const sources: seq<string>
    const maxResults: int
    var allResults: seq<Record>

    /** The gatherer of a validated request (the constructor returns normally). */
    constructor (keyword: string, sources: seq<string>, maxResults: int)
      requires CheckRequest(keyword, sources).None?
      ensures this.keyword == keyword && this.sources == sources && this.maxResults == maxResults
      ensures allResults == []
    {
      this.keyword := keyword;
      this.sources := sources;
      this.maxResults := maxResults;
      allResults := [];
    }

    /**
     * `_get_searcher`: a fresh searcher for a known source, built with this
     * request's keyword and result cap, and null for an unknown one.
     */
    method GetSearcher(source: string) returns (s: Searcher?)
      ensures s == null <==> Resolve(source).None?
      ensures s != null ==>
        && fresh(s)
        && s.kind == Resolve(source).value
        && s.sourceName == source
        && s.keyword == keyword
        && s.maxResults == Cap(maxResults)
        && s.results == []
    {
      match Resolve(source)
      case None =>
        s := null;
      case Some(kind) =>
        s := new Searcher(kind, keyword, maxResults);
    }

    /**
     * The `as_completed` loop of `search`: each returned list is appended to
     * `allResults`; a search that raised is logged and skipped.
     */
    method CollectAll(completions: seq<Completion>)
      modifies this
      ensures allResults == old(allResults) + Collected(completions)
    {
      ghost var start := allResults;
      for i := 0 to |completions|
        invariant allResults == start + Collected(completions[..i])
      {
        ghost var pre := completions[..i];
        assert completions[..i + 1] == pre + [completions[i]];
        CollectedSnoc(pre, completions[i]);
        match completions[i].outcome
        case Returned(rs) =>
          assert start + Collected(pre) + rs == start + (Collected(pre) + rs);
          allResults := allResults + rs;
        case Raised(_) =>
          assert Collected(pre) + [] == Collected(pre);
      }
      assert completions[..|completions|] == completions;
    }

    /**
     * `search`: extend `allResults` with every returned list in completion
     * order, then keep the first result for each non-empty URL. The
     * completions are those of the searches submitted for `sources`, one per
     * submission, in any order.
     */
    method Search(completions: seq<Completion>) returns (unique: seq<Record>)
      requires multiset(CompletedSources(completions)) == multiset(Submitted(sources))
      modifies this
      ensures allResults == Dedup(old(allResults) + Collected(completions))
      ensures unique == allResults
    {
      CollectAll(completions);
      unique := UniqueByUrl(allResults);
      allResults := unique;
    }
  }

  /**
   * Constructing the gatherer: it raises exactly when `CheckRequest`
   * reports an error, and otherwise holds the request and no results.
   */
  method NewGatherer(keyword: string, sources: seq<string>, maxResults: int)
    returns (g: Gatherer?, error: Option<ValidationError>)
    ensures error == CheckRequest(keyword, sources)
    ensures g == null <==> error.Some?
    ensures g != null ==>
      && fresh(g)
      && g.keyword == keyword && g.sources == sources && g.maxResults == maxResults
      && g.allResults == []
  {
    error := CheckRequest(keyword, sources);
    if error.None? {
      g := new Gatherer(keyword, sources, maxResults);
    } else {
      g := null;
    }
  }

  /**
   * What one search of a fresh gatherer promises: every kept result has a
   * URL, no two share one, they are the first result for each URL among
   * the returned lists, every returned URL is represented, and a validated
   * request has every source submitted.
   */
  lemma SearchOutcome(keyword: string, sources: seq<string>, completions: seq<Completion>)
    requires CheckRequest(keyword, sources).None?
    ensures Submitted(sources) == sources
    ensures UniqueUrls(Dedup(Collected(completions)))
    ensures UrlsOf(Dedup(Collected(completions))) == UrlsOf(Collected(completions)) - {""}
    ensures Dedup(Dedup(Collected(completions))) == Dedup(Collected(completions))
  {
    ValidSourcesAllSubmitted(sources);
    DedupUrls(Collected(completions));
    DedupIdempotent(Collected(completions));
  }
}

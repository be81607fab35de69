/**
 * Request validation: the checks of the gatherer's constructor and the
 * source handling of `main` (the `all` shorthand and its own check).
 */
module Validation {
  import opened Wrappers
  import opened Config

  datatype ValidationError =
    | KeywordTooShort
    | KeywordTooLong
    | InvalidSources(names: set<string>)

  /** `set(sources) - set(AVAILABLE_SOURCES)`. */
  function UnknownNames(sources: seq<string>): (names: set<string>)
    ensures names == {} <==> forall i :: 0 <= i < |sources| ==> sources[i] in AvailableSources
    ensures forall x :: x in names ==> x in sources
  {
    var names := set x | x in sources && x !in AvailableSources;
    assert forall i :: 0 <= i < |sources| && sources[i] !in AvailableSources ==> sources[i] in names;
    names
  }

  /**
   * The constructor's checks, in its order: a missing or short keyword, a
   * long keyword, then unknown sources. `None` means the constructor returns.
   */
  function CheckRequest(keyword: string, sources: seq<string>): (r: Option<ValidationError>)
    ensures r.None? <==>
              && MinKeywordLength <= |keyword| <= MaxKeywordLength
              && forall i :: 0 <= i < |sources| ==> sources[i] in AvailableSources
    ensures r == Some(KeywordTooShort) <==> |keyword| < MinKeywordLength
    ensures r == Some(KeywordTooLong) <==> |keyword| > MaxKeywordLength
    ensures r.Some? && r.value.InvalidSources? ==>
              && MinKeywordLength <= |keyword| <= MaxKeywordLength
              && r.value.names != {}
              && forall x :: x in r.value.names <==> x in sources && x !in AvailableSources
  {
    if keyword == [] || |keyword| < MinKeywordLength then Some(KeywordTooShort)
    else if |keyword| > MaxKeywordLength then Some(KeywordTooLong)
    else
      var unknown := UnknownNames(sources);
      if unknown != {} then Some(InvalidSources(unknown))
      else None
  }

  /** `main` replaces the exact list `['all']`, and nothing else, by every source. */
  function ExpandSources(requested: seq<string>): seq<string> {
    if requested == ["all"] then AvailableSources else requested
  }

  /** Why `main` exits with status 1 before searching. */
  datatype CliError =
    | UnknownSources(names: set<string>)
    | Rejected(reason: ValidationError)

  /**
   * What `main` does before the search: expand `all`, reject unknown source
   * names itself, then let the constructor check the keyword. `Ok` carries
   * the source list the gatherer is built with.
   */
  function PrepareRun(keyword: string, requested: seq<string>): (r: Result<seq<string>, CliError>)
    ensures r.Ok? <==>
              && MinKeywordLength <= |keyword| <= MaxKeywordLength
              && (requested == ["all"] || forall i :: 0 <= i < |requested| ==> requested[i] in AvailableSources)
    ensures r.Ok? ==> CheckRequest(keyword, r.value).None?
    ensures r.Ok? && requested != ["all"] ==> r.value == requested
    ensures r.Ok? && requested == ["all"] ==> r.value == AvailableSources
  {
    var sources := ExpandSources(requested);
    var unknown := UnknownNames(sources);
    if unknown != {} then Err(UnknownSources(unknown))
    else match CheckRequest(keyword, sources)
      case Some(e) => Err(Rejected(e))
      case None => Ok(sources)
  }

  /**
   * `all` is only a shorthand on its own: mixed with other names it is an
   * unknown source, reported before the keyword is looked at.
   */
  lemma AllMustStandAlone(keyword: string, requested: seq<string>)
    requires "all" in requested && requested != ["all"]
    ensures PrepareRun(keyword, requested).Err?
    ensures PrepareRun(keyword, requested).error.UnknownSources?
    ensures "all" in PrepareRun(keyword, requested).error.names
  {
    assert "all" !in AvailableSources;
  }

  /** The default source list passes the check. */
  lemma DefaultSourcesAreValid(keyword: string)
    requires MinKeywordLength <= |keyword| <= MaxKeywordLength
    ensures PrepareRun(keyword, DefaultSources) == Ok(DefaultSources)
  {
    assert DefaultSources != ["all"];
  }
}

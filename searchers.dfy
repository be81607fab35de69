/**
 * The per-source adapters. Each searcher caps its result count, turns the
 * provider's items into normalised records, and returns a prefix of what it
 * gathered. The request and the parsing of the response body are not
 * modelled: a searcher is handed either the items the provider returned or
 * the fact that the request (or the parsing) raised.
 */
module Searchers {
  import opened Wrappers
  import opened Config
  import opened Records
  import opened Text
  import opened Registry

  /** `min(max_results, MAX_RESULTS_LIMIT)` of `BaseSearcher.__init__`; no lower bound. */
  function Cap(requested: int): (r: int)
    ensures r <= requested && r <= MaxResultsLimit
    ensures r == requested || r == MaxResultsLimit
  {
    if requested < MaxResultsLimit then requested else MaxResultsLimit
  }

  /** Python's `s[:n]`, including its meaning for a negative `n`. */
  function PrefixSlice<T>(s: seq<T>, n: int): (r: seq<T>)
    ensures r <= s
    ensures 0 <= n ==> |r| == (if n < |s| then n else |s|)
    ensures n < 0 ==> |r| == (if |s| + n > 0 then |s| + n else 0)
  {
    if 0 <= n then (if n < |s| then s[..n] else s)
    else if |s| + n > 0 then s[..|s| + n]
    else []
  }

  /** The link element of a news article, with its `href` attribute if any. */
  datatype Anchor = Anchor(href: Option<string>)

  /**
   * One item of a provider's response. `None` stands for a key the item
   * does not have (or, for the Hacker News URL, a null one).
   */
  datatype Item =
    | WikipediaHit(title: Option<string>, snippet: Option<string>)
    | Repository(name: Option<string>, about: Option<string>, htmlUrl: Option<string>)
    | Question(title: Option<string>, score: Option<int>, tags: Option<seq<string>>, link: Option<string>)
    | Story(title: Option<string>, points: Option<int>, comments: Option<int>,
            storyUrl: Option<string>, objectId: Option<string>)
    | Article(heading: Option<string>, anchor: Option<Anchor>, paragraph: Option<string>)

  /** What the request and the parsing of its response produced. */
  datatype Fetch = RequestFailed | Fetched(items: seq<Item>)

  const WikipediaArticleBase: string := "https://en.wikipedia.org/wiki/"
  const MatchOpen: string := "<span class='searchmatch'>"
  const MatchClose: string := "</span>"
  const HackerNewsItemBase: string := "https://news.ycombinator.com/item?id="
  const NoDescription: string := "No description provided"
  const NewsArticle: string := "News article"

  /** The Wikipedia snippet with its search-match markup removed. */
  function StripHighlight(snippet: string): string {
    Replace(Replace(snippet, MatchOpen, ""), MatchClose, "")
  }

  /** The article link built from a Wikipedia title. */
  function WikipediaUrl(title: string): string {
    WikipediaArticleBase + Replace(title, " ", "_")
  }

  /** The Stack Overflow title with the two entities the adapter decodes. */
  function UnescapeTitle(title: string): string {
    Replace(Replace(title, "&quot;", "\""), "&amp;", "&")
  }

  /** `item.get('url', '') or <item link>`: a story always gets a link. */
  function StoryUrl(storyUrl: Option<string>, objectId: Option<string>): (u: string)
    ensures u != ""
    ensures storyUrl.Some? && storyUrl.value != "" ==> u == storyUrl.value
    ensures storyUrl.None? || storyUrl.value == "" ==> HackerNewsItemBase <= u
  {
    var given := storyUrl.GetOr("");
    if given != "" then given else HackerNewsItemBase + objectId.GetOr("")
  }

  /**
   * The record an adapter appends for one item, stamped with the searcher's
   * `source_name` and the clock reading `now`. A news article without a
   * heading or a link yields none.
   */
  function ToRecord(sourceName: string, item: Item, now: string): (r: Option<Record>)
    ensures r.Some? ==> Field(r.value, "source", "") == sourceName && Field(r.value, "timestamp", "") == now
    ensures item.Article? ==> (r.Some? <==> item.heading.Some? && item.anchor.Some?)
    ensures !item.Article? ==> r.Some?
    ensures item.Story? ==> Url(r.value) != ""
    ensures item.WikipediaHit? ==> WikipediaArticleBase <= Url(r.value)
  {
    match item
    case WikipediaHit(title, snippet) =>
      Some(MakeRecord(sourceName, title.GetOr(""), StripHighlight(snippet.GetOr("")),
                      WikipediaUrl(title.GetOr("")), now))
    case Repository(name, about, htmlUrl) =>
      Some(MakeRecord(sourceName, name.GetOr(""), about.GetOr(NoDescription), htmlUrl.GetOr(""), now))
    case Question(title, score, tags, link) =>
      Some(MakeRecord(sourceName, UnescapeTitle(title.GetOr("")),
                      "Score: " + IntToDecimal(score.GetOr(0)) + ", Tags: " + Join(tags.GetOr([]), ", "),
                      link.GetOr(""), now))
    case Story(title, points, comments, storyUrl, objectId) =>
      Some(MakeRecord(sourceName, title.GetOr(""),
                      "Points: " + IntToDecimal(points.GetOr(0)) + ", Comments: " + IntToDecimal(comments.GetOr(0)),
                      StoryUrl(storyUrl, objectId), now))
    case Article(heading, anchor, paragraph) =>
      if heading.Some? && anchor.Some? then
        Some(MakeRecord(sourceName, heading.value, paragraph.GetOr(NewsArticle),
                        anchor.value.href.GetOr(""), now))
      else None
  }

  /**
   * `soup.find_all('article', limit=max_results)`: the search stops once it
   * holds `limit` matches, so 0 means no limit and a negative limit stops
   * after the first match.
   */
  function FindAll(articles: seq<Item>, limit: int): (r: seq<Item>)
    ensures r <= articles
    ensures limit == 0 ==> r == articles
    ensures 0 < limit ==> |r| == (if limit < |articles| then limit else |articles|)
    ensures limit < 0 ==> |r| == (if articles == [] then 0 else 1)
  {
    if limit == 0 then articles
    else if 0 < limit then PrefixSlice(articles, limit)
    else PrefixSlice(articles, 1)
  }

  /** The items the adapter's loop walks over. */
  function Scanned(kind: SourceId, items: seq<Item>, maxResults: int): seq<Item> {
    if kind == GoogleNews then FindAll(items, maxResults) else items
  }

  /** The records the adapter's loop appends for `items`, in order. */
  function Harvest(sourceName: string, items: seq<Item>, now: string): seq<Record>
    decreases |items|
  {
    if items == [] then []
    else
      var n := |items| - 1;
      var next := ToRecord(sourceName, items[n], now);
      Harvest(sourceName, items[..n], now) + (if next.Some? then [next.value] else [])
  }

  /** Every harvested record carries the searcher's name and the clock reading. */
  lemma {:induction false} HarvestStamped(sourceName: string, items: seq<Item>, now: string)
    ensures forall k :: 0 <= k < |Harvest(sourceName, items, now)| ==>
              && Field(Harvest(sourceName, items, now)[k], "source", "") == sourceName
              && Field(Harvest(sourceName, items, now)[k], "timestamp", "") == now
    decreases |items|
  {
    if items != [] {
      var n := |items| - 1;
      HarvestStamped(sourceName, items[..n], now);
      var h := Harvest(sourceName, items[..n], now);
      var next := ToRecord(sourceName, items[n], now);
      var h' := Harvest(sourceName, items, now);
      assert h' == h + (if next.Some? then [next.value] else []);
      forall k | 0 <= k < |h'|
        ensures Field(h'[k], "source", "") == sourceName && Field(h'[k], "timestamp", "") == now
      {
        if k < |h| {
          assert h'[k] == h[k];
          assert Field(h[k], "source", "") == sourceName;
        } else {
          assert next.Some?;
          assert h'[k] == next.value;
          assert Field(next.value, "source", "") == sourceName;
        }
      }
    }
  }

  /** At most one record per item. */
  lemma {:induction false} HarvestLength(sourceName: string, items: seq<Item>, now: string)
    ensures |Harvest(sourceName, items, now)| <= |items|
    decreases |items|
  {
    if items != [] {
      var n := |items| - 1;
      HarvestLength(sourceName, items[..n], now);
      var next := ToRecord(sourceName, items[n], now);
      assert |Harvest(sourceName, items, now)|
          == |Harvest(sourceName, items[..n], now)| + |if next.Some? then [next.value] else []|;
    }
  }

  /** Exactly one record per item when none of them is a news article. */
  lemma {:induction false} HarvestKeepsEveryHit(sourceName: string, items: seq<Item>, now: string)
    requires forall i :: 0 <= i < |items| ==> !items[i].Article?
    ensures |Harvest(sourceName, items, now)| == |items|
    decreases |items|
  {
    if items != [] {
      var n := |items| - 1;
      assert forall i :: 0 <= i < n ==> items[..n][i] == items[i];
      HarvestKeepsEveryHit(sourceName, items[..n], now);
      assert !items[n].Article?;
      var next := ToRecord(sourceName, items[n], now);
      assert |Harvest(sourceName, items, now)|
          == |Harvest(sourceName, items[..n], now)| + |if next.Some? then [next.value] else []|;
    }
  }

  /** Hacker News records always have a URL. */
  lemma {:induction false} HarvestStoriesHaveUrls(sourceName: string, items: seq<Item>, now: string)
    requires forall i :: 0 <= i < |items| ==> items[i].Story?
    ensures forall k :: 0 <= k < |Harvest(sourceName, items, now)| ==> Url(Harvest(sourceName, items, now)[k]) != ""
    decreases |items|
  {
    if items != [] {
      var n := |items| - 1;
      assert forall i :: 0 <= i < n ==> items[..n][i] == items[i];
      HarvestStoriesHaveUrls(sourceName, items[..n], now);
    }
  }

  /** Wikipedia records always link into the encyclopedia. */
  lemma {:induction false} HarvestWikipediaLinks(sourceName: string, items: seq<Item>, now: string)
    requires forall i :: 0 <= i < |items| ==> items[i].WikipediaHit?
    ensures forall k :: 0 <= k < |Harvest(sourceName, items, now)| ==>
              WikipediaArticleBase <= Url(Harvest(sourceName, items, now)[k])
    decreases |items|
  {
    if items != [] {
      var n := |items| - 1;
      assert forall i :: 0 <= i < n ==> items[..n][i] == items[i];
      HarvestWikipediaLinks(sourceName, items[..n], now);
    }
  }

  /** One more item adds its record, if it yields one. */
  lemma HarvestStep(sourceName: string, items: seq<Item>, i: nat, now: string)
    requires i < |items|
    ensures var next := ToRecord(sourceName, items[i], now);
      Harvest(sourceName, items[..i + 1], now)
        == Harvest(sourceName, items[..i], now) + (if next.Some? then [next.value] else [])
  {
    assert items[..i + 1][..i] == items[..i];
  }

  /** Spaces in a Wikipedia title become underscores in its link, and nothing else changes. */
  lemma WikipediaUrlFacts(title: string)
    ensures var u := WikipediaUrl(title);
      && WikipediaArticleBase <= u
      && |u| == |WikipediaArticleBase| + |title|
      && forall i :: 0 <= i < |title| ==>
           u[|WikipediaArticleBase| + i] == (if title[i] == ' ' then '_' else title[i])
  {
    ReplaceCharPointwise(title, ' ', '_');
  }

  /** A piece of snippet text, marked as a search match or not. */
  datatype Segment = Plain(text: string) | Match(text: string)

  /** The snippet for `segs` marked up as the adapter expects: each match wrapped in `MatchOpen` and `MatchClose`. */
  function Render(segs: seq<Segment>): string
    decreases |segs|
  {
    if segs == [] then "" else Marked(segs[0]) + Render(segs[1..])
  }

  function Marked(seg: Segment): string {
    match seg
    case Plain(t) => t
    case Match(t) => MatchOpen + t + MatchClose
  }

  /** The text of `segs` without markup. */
  function Words(segs: seq<Segment>): string
    decreases |segs|
  {
    if segs == [] then "" else segs[0].text + Words(segs[1..])
  }

  /** `Render` after the opening tags are gone. */
  function RenderClosed(segs: seq<Segment>): string
    decreases |segs|
  {
    if segs == [] then "" else HalfMarked(segs[0]) + RenderClosed(segs[1..])
  }

  function HalfMarked(seg: Segment): string {
    match seg
    case Plain(t) => t
    case Match(t) => t + MatchClose
  }

  /** A closing tag is not mistaken for an opening one. */
  lemma CloseTagSurvivesOpenStrip(r: string)
    ensures Replace(MatchClose + r, MatchOpen, "") == MatchClose + Replace(r, MatchOpen, "")
  {
    assert MatchClose + r == ['<'] + ("/span>" + r);
    assert !(MatchOpen <= ['<'] + ("/span>" + r)) by {
      assert (['<'] + ("/span>" + r))[1] == '/';
    }
    ReplaceNoMatch('<', "/span>" + r, MatchOpen, "");
    ReplaceKeepsPlain("/span>", r, MatchOpen, "");
  }

  /** Removing opening tags from one rendered segment and what follows it. */
  lemma OpenStripHead(seg: Segment, r: string)
    requires '<' !in seg.text
    ensures Replace(Marked(seg) + r, MatchOpen, "") == HalfMarked(seg) + Replace(r, MatchOpen, "")
  {
    var t := seg.text;
    if seg.Plain? {
      ReplaceKeepsPlain(t, r, MatchOpen, "");
    } else {
      calc {
        Replace(Marked(seg) + r, MatchOpen, "");
        { assert Marked(seg) + r == MatchOpen + (t + (MatchClose + r)); }
        Replace(MatchOpen + (t + (MatchClose + r)), MatchOpen, "");
        { ReplaceAtMatch(MatchOpen, "", t + (MatchClose + r)); }
        Replace(t + (MatchClose + r), MatchOpen, "");
        { ReplaceKeepsPlain(t, MatchClose + r, MatchOpen, ""); }
        t + Replace(MatchClose + r, MatchOpen, "");
        { CloseTagSurvivesOpenStrip(r); }
        t + (MatchClose + Replace(r, MatchOpen, ""));
        { assert t + (MatchClose + Replace(r, MatchOpen, "")) == (t + MatchClose) + Replace(r, MatchOpen, ""); }
        HalfMarked(seg) + Replace(r, MatchOpen, "");
      }
    }
  }

  /** Removing closing tags from one half-stripped segment and what follows it. */
  lemma CloseStripHead(seg: Segment, r: string)
    requires '<' !in seg.text
    ensures Replace(HalfMarked(seg) + r, MatchClose, "") == seg.text + Replace(r, MatchClose, "")
  {
    var t := seg.text;
    if seg.Plain? {
      ReplaceKeepsPlain(t, r, MatchClose, "");
    } else {
      calc {
        Replace(HalfMarked(seg) + r, MatchClose, "");
        { assert HalfMarked(seg) + r == t + (MatchClose + r); }
        Replace(t + (MatchClose + r), MatchClose, "");
        { ReplaceKeepsPlain(t, MatchClose + r, MatchClose, ""); }
        t + Replace(MatchClose + r, MatchClose, "");
        { ReplaceAtMatch(MatchClose, "", r); }
        t + Replace(r, MatchClose, "");
      }
    }
  }

  lemma {:induction false} StripOpenTags(segs: seq<Segment>)
    requires forall i :: 0 <= i < |segs| ==> '<' !in segs[i].text
    ensures Replace(Render(segs), MatchOpen, "") == RenderClosed(segs)
    decreases |segs|
  {
    if segs != [] {
      var rest := segs[1..];
      assert forall i :: 0 <= i < |rest| ==> rest[i] == segs[i + 1];
      StripOpenTags(rest);
      OpenStripHead(segs[0], Render(rest));
    }
  }

  lemma {:induction false} StripCloseTags(segs: seq<Segment>)
    requires forall i :: 0 <= i < |segs| ==> '<' !in segs[i].text
    ensures Replace(RenderClosed(segs), MatchClose, "") == Words(segs)
    decreases |segs|
  {
    if segs != [] {
      var rest := segs[1..];
      assert forall i :: 0 <= i < |rest| ==> rest[i] == segs[i + 1];
      StripCloseTags(rest);
      CloseStripHead(segs[0], RenderClosed(rest));
    }
  }

  /**
   * Stripping the markup from a snippet marked up as the adapter expects
   * gives back its text, as long as the text itself holds no `<`.
   */
  lemma StripHighlightRecoversText(segs: seq<Segment>)
    requires forall i :: 0 <= i < |segs| ==> '<' !in segs[i].text
    ensures StripHighlight(Render(segs)) == Words(segs)
  {
    StripOpenTags(segs);
    StripCloseTags(segs);
  }

  /** How the provider encodes the two characters the adapter decodes. */
  function EscapeEntities(s: string): string
    decreases |s|
  {
    if s == [] then ""
    else Entity(s[0]) + EscapeEntities(s[1..])
  }

  function Entity(c: char): string {
    if c == '&' then "&amp;" else if c == '"' then "&quot;" else [c]
  }

  function AmpersandEntity(c: char): string {
    if c == '&' then "&amp;" else [c]
  }

  /** `EscapeEntities` with only the ampersands still encoded. */
  function EscapeAmpersands(s: string): string
    decreases |s|
  {
    if s == [] then ""
    else AmpersandEntity(s[0]) + EscapeAmpersands(s[1..])
  }

  /** Decoding `&quot;` in one encoded character and what follows it. */
  lemma DecodeQuotesHead(c: char, rest: string)
    ensures Replace(Entity(c) + rest, "&quot;", "\"") == AmpersandEntity(c) + Replace(rest, "&quot;", "\"")
  {
    if c == '&' {
      assert Entity(c) + rest == ['&'] + ("amp;" + rest);
      assert !("&quot;" <= ['&'] + ("amp;" + rest)) by {
        assert (['&'] + ("amp;" + rest))[1] == 'a';
      }
      ReplaceNoMatch('&', "amp;" + rest, "&quot;", "\"");
      ReplaceKeepsPlain("amp;", rest, "&quot;", "\"");
    } else if c == '"' {
      ReplaceAtMatch("&quot;", "\"", rest);
    } else {
      ReplaceKeepsPlain([c], rest, "&quot;", "\"");
    }
  }

  /** Decoding `&amp;` in one character encoded that way and what follows it. */
  lemma DecodeAmpersandsHead(c: char, rest: string)
    ensures Replace(AmpersandEntity(c) + rest, "&amp;", "&") == [c] + Replace(rest, "&amp;", "&")
  {
    if c == '&' {
      ReplaceAtMatch("&amp;", "&", rest);
    } else {
      ReplaceKeepsPlain([c], rest, "&amp;", "&");
    }
  }

  lemma {:induction false} DecodeQuotes(s: string)
    ensures Replace(EscapeEntities(s), "&quot;", "\"") == EscapeAmpersands(s)
    decreases |s|
  {
    if s != [] {
      DecodeQuotes(s[1..]);
      DecodeQuotesHead(s[0], EscapeEntities(s[1..]));
    }
  }

  lemma {:induction false} DecodeAmpersands(s: string)
    ensures Replace(EscapeAmpersands(s), "&amp;", "&") == s
    decreases |s|
  {
    if s != [] {
      DecodeAmpersands(s[1..]);
      DecodeAmpersandsHead(s[0], EscapeAmpersands(s[1..]));
      assert [s[0]] + s[1..] == s;
    }
  }

  /**
   * Decoding `&quot;` before `&amp;` undoes the provider's encoding exactly:
   * an encoded `&quot;` in the original title is not decoded twice.
   */
  lemma UnescapeTitleRoundTrip(s: string)
    ensures UnescapeTitle(EscapeEntities(s)) == s
  {
    DecodeQuotes(s);
    DecodeAmpersands(s);
  }

  /** A searcher object: one per submitted source. */
  class Searcher {
    const kind: SourceId
    const keyword: string
    const maxResults: int
    const sourceName: string
    var results: seq<Record>

    /** The searcher of `kind` for one search. */
    constructor (kind: SourceId, keyword: string, maxResults: int)
      ensures this.kind == kind && this.keyword == keyword
      ensures this.maxResults == Cap(maxResults)
      ensures sourceName == SourceName(kind)
      ensures results == []
    {
      this.kind := kind;
      this.keyword := keyword;
      this.maxResults := Cap(maxResults);
      this.sourceName := SourceName(kind);
      results := [];
    }

    /**
     * `search()`: append one record per item (a failed request appends
     * none; its warning is not modelled) and return the first `maxResults`.
     */
    method Search(fetch: Fetch, now: string) returns (found: seq<Record>)
      modifies this
      ensures results == old(results)
        + (if fetch.Fetched? then Harvest(sourceName, Scanned(kind, fetch.items, maxResults), now) else [])
      ensures found == PrefixSlice(results, maxResults)
    {
      if fetch.Fetched? {
        var items := Scanned(kind, fetch.items, maxResults);
        var name := sourceName;
        ghost var before := results;
        for i := 0 to |items|
          invariant results == before + Harvest(name, items[..i], now)
        {
          var next := ToRecord(name, items[i], now);
          HarvestStep(name, items, i, now);
          if next.Some? {
            results := results + [next.value];
          }
        }
        assert items[..|items|] == items;
      }
      found := PrefixSlice(results, maxResults);
    }
  }

  /**
   * For a non-negative request, a searcher returns a prefix of what it
   * gathered, of length at most the request and at most the hard limit.
   */
  lemma AdapterReturnsCappedPrefix(gathered: seq<Record>, requested: int)
    requires 0 <= requested
    ensures PrefixSlice(gathered, Cap(requested)) <= gathered
    ensures |PrefixSlice(gathered, Cap(requested))| <= requested
    ensures |PrefixSlice(gathered, Cap(requested))| <= MaxResultsLimit
    ensures |PrefixSlice(gathered, Cap(requested))| == |gathered| || |PrefixSlice(gathered, Cap(requested))| == Cap(requested)
  {
  }
}

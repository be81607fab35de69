/**
 * Deduplication of the merged results by URL (the tail of
 * `WebIntelligenceGatherer.search`): one pass keeping each result whose URL
 * is non-empty and not seen before. Results with an empty or missing URL are
 * dropped.
 */
module Deduplication {
  import opened Records

  /** Every URL carried by `rs`, the empty one included. */
  function UrlsOf(rs: seq<Record>): set<string> {
    set i | 0 <= i < |rs| :: Url(rs[i])
  }

  lemma UrlsOfSnoc(rs: seq<Record>, r: Record)
    ensures UrlsOf(rs + [r]) == UrlsOf(rs) + {Url(r)}
  {
    var rs' := rs + [r];
    forall u | u in UrlsOf(rs')
      ensures u in UrlsOf(rs) + {Url(r)}
    {
      var i :| 0 <= i < |rs'| && Url(rs'[i]) == u;
      if i < |rs| {
        assert rs'[i] == rs[i];
      }
    }
    forall u | u in UrlsOf(rs)
      ensures u in UrlsOf(rs')
    {
      var i :| 0 <= i < |rs| && Url(rs[i]) == u;
      assert rs'[i] == rs[i];
    }
    assert Url(rs'[|rs|]) in UrlsOf(rs');
  }

  /** The result at position `i` is the first one carrying its non-empty URL. */
  predicate IsFirstOfUrl(rs: seq<Record>, i: int)
    requires 0 <= i < |rs|
  {
    Url(rs[i]) != "" && forall j :: 0 <= j < i ==> Url(rs[j]) != Url(rs[i])
  }

  /** No result has an empty URL and no two results share one. */
  predicate UniqueUrls(rs: seq<Record>) {
    && (forall i :: 0 <= i < |rs| ==> Url(rs[i]) != "")
    && (forall i, j :: 0 <= i < j < |rs| ==> Url(rs[i]) != Url(rs[j]))
  }

  /** The deduplicated list, defined by the pass that builds it. */
  function Dedup(rs: seq<Record>): seq<Record>
    decreases |rs|
  {
    if rs == [] then []
    else
      var n := |rs| - 1;
      Dedup(rs[..n]) + (if IsFirstOfUrl(rs, n) then [rs[n]] else [])
  }

  /** The positions of `rs` that `Dedup` keeps, in increasing order. */
  function KeptPositions(rs: seq<Record>): (idx: seq<nat>)
    ensures forall k :: 0 <= k < |idx| ==> idx[k] < |rs|
    ensures forall k, l :: 0 <= k < l < |idx| ==> idx[k] < idx[l]
    decreases |rs|
  {
    if rs == [] then []
    else
      var n := |rs| - 1;
      KeptPositions(rs[..n]) + (if IsFirstOfUrl(rs, n) then [n] else [])
  }

  /** Whether a position is first for its URL depends only on what precedes it. */
  lemma FirstOfUrlInPrefix(rs: seq<Record>, n: nat, i: nat)
    requires i < n <= |rs|
    ensures IsFirstOfUrl(rs[..n], i) == IsFirstOfUrl(rs, i)
  {
    assert forall j :: 0 <= j <= i ==> rs[..n][j] == rs[j];
  }

  /**
   * `Dedup` is the order-preserving subsequence of `rs` made of the first
   * result for each distinct non-empty URL, and of nothing else.
   */
  lemma {:induction false} DedupKeepsFirstOccurrences(rs: seq<Record>)
    ensures |Dedup(rs)| == |KeptPositions(rs)|
    ensures forall k :: 0 <= k < |KeptPositions(rs)| ==> Dedup(rs)[k] == rs[KeptPositions(rs)[k]]
    ensures forall i :: 0 <= i < |rs| ==> (i in KeptPositions(rs) <==> IsFirstOfUrl(rs, i))
    decreases |rs|
  {
    if rs != [] {
      var n := |rs| - 1;
      var pre := rs[..n];
      DedupKeepsFirstOccurrences(pre);
      forall i | 0 <= i < n
        ensures i in KeptPositions(rs) <==> IsFirstOfUrl(rs, i)
      {
        FirstOfUrlInPrefix(rs, n, i);
        assert i in KeptPositions(rs) <==> i in KeptPositions(pre);
      }
      forall k | 0 <= k < |KeptPositions(pre)|
        ensures Dedup(rs)[k] == rs[KeptPositions(rs)[k]]
      {
        assert KeptPositions(rs)[k] == KeptPositions(pre)[k];
        assert Dedup(rs)[k] == Dedup(pre)[k];
      }
    }
  }

  /**
   * The deduplicated list has unique non-empty URLs, and they are exactly
   * the non-empty URLs of the input.
   */
  lemma {:induction false} DedupUrls(rs: seq<Record>)
    ensures UniqueUrls(Dedup(rs))
    ensures UrlsOf(Dedup(rs)) == UrlsOf(rs) - {""}
    decreases |rs|
  {
    if rs != [] {
      var n := |rs| - 1;
      var pre := rs[..n];
      DedupUrls(pre);
      var d := Dedup(pre);
      assert pre + [rs[n]] == rs;
      UrlsOfSnoc(pre, rs[n]);
      if IsFirstOfUrl(rs, n) {
        assert Url(rs[n]) !in UrlsOf(pre) by {
          forall j | 0 <= j < n
            ensures Url(pre[j]) != Url(rs[n])
          {
            assert pre[j] == rs[j];
          }
        }
        var d' := d + [rs[n]];
        assert Dedup(rs) == d';
        UrlsOfSnoc(d, rs[n]);
        forall i | 0 <= i < |d|
          ensures Url(d'[i]) != Url(rs[n])
        {
          assert Url(d[i]) in UrlsOf(d);
        }
      } else {
        assert Dedup(rs) == d;
        assert Url(rs[n]) == "" || Url(rs[n]) in UrlsOf(pre) by {
          if Url(rs[n]) != "" {
            var j :| 0 <= j < n && Url(rs[j]) == Url(rs[n]);
            assert Url(pre[j]) == Url(rs[n]);
          }
        }
      }
    }
  }

  /** A list whose URLs are already unique and non-empty is left as it is. */
  lemma {:induction false} DedupOfUniqueIsIdentity(rs: seq<Record>)
    requires UniqueUrls(rs)
    ensures Dedup(rs) == rs
    decreases |rs|
  {
    if rs != [] {
      var n := |rs| - 1;
      var pre := rs[..n];
      assert UniqueUrls(pre) by {
        assert forall i :: 0 <= i < n ==> pre[i] == rs[i];
      }
      DedupOfUniqueIsIdentity(pre);
      assert IsFirstOfUrl(rs, n);
      assert Dedup(rs) == Dedup(pre) + [rs[n]];
      assert pre + [rs[n]] == rs;
    }
  }

  /** Deduplicating twice is deduplicating once. */
  lemma DedupIdempotent(rs: seq<Record>)
    ensures Dedup(Dedup(rs)) == Dedup(rs)
  {
    DedupUrls(rs);
    DedupOfUniqueIsIdentity(Dedup(rs));
  }

  /**
   * One step of the pass: the next result is kept exactly when its URL is
   * non-empty and not among the URLs before it.
   */
  lemma PassStep(rs: seq<Record>, i: nat)
    requires i < |rs|
    ensures UrlsOf(rs[..i + 1]) == UrlsOf(rs[..i]) + {Url(rs[i])}
    ensures Dedup(rs[..i + 1])
         == Dedup(rs[..i]) + (if Url(rs[i]) != "" && Url(rs[i]) !in UrlsOf(rs[..i]) then [rs[i]] else [])
  {
    var pre := rs[..i];
    var url := Url(rs[i]);
    assert rs[..i + 1][..i] == pre;
    assert rs[..i + 1] == pre + [rs[i]];
    UrlsOfSnoc(pre, rs[i]);
    assert IsFirstOfUrl(rs[..i + 1], i) <==> url != "" && url !in UrlsOf(pre) by {
      if url in UrlsOf(pre) {
        var j :| 0 <= j < i && Url(pre[j]) == url;
        assert Url(rs[..i + 1][j]) == url;
      }
    }
  }

  /**
   * The pass of `search`: `unique` and `seen` grow together, and the result
   * list replaces the merged one.
   */
  method UniqueByUrl(all: seq<Record>) returns (unique: seq<Record>)
    ensures unique == Dedup(all)
  {
    unique := [];
    var seen: set<string> := {};
    for i := 0 to |all|
      invariant unique == Dedup(all[..i])
      invariant seen == UrlsOf(all[..i]) - {""}
    {
      var url := Url(all[i]);
      PassStep(all, i);
      if url != "" && url !in seen {
        unique := unique + [all[i]];
        seen := seen + {url};
      }
    }
    assert all[..|all|] == all;
  }

  /** One more result: kept exactly when it is the first with its non-empty URL. */
  lemma DedupSnoc(rs: seq<Record>, r: Record)
    ensures Dedup(rs + [r]) == Dedup(rs) + (if IsFirstOfUrl(rs + [r], |rs|) then [r] else [])
  {
    assert (rs + [r])[..|rs|] == rs;
  }

  /** Two results with the same URL and two with none keep the first result only. */
  lemma EmptyUrlsAreDropped(a: Record, b: Record, c: Record, d: Record)
    requires Url(a) == Url(b) != ""
    requires Url(c) == "" && Url(d) == ""
    ensures Dedup([a, b, c, d]) == [a]
  {
    DedupSnoc([], a);
    assert [] + [a] == [a];
    assert IsFirstOfUrl([a], 0);
    DedupSnoc([a], b);
    assert [a] + [b] == [a, b];
    assert Url([a, b][0]) == Url([a, b][1]);
    DedupSnoc([a, b], c);
    assert [a, b] + [c] == [a, b, c];
    DedupSnoc([a, b, c], d);
    assert [a, b, c] + [d] == [a, b, c, d];
  }
}

/**
 * The grouping step of `print_results`: a dictionary from source name to
 * the results of that source, filled in one pass. Python dictionaries keep
 * the order in which keys were inserted, so the grouping is a key order
 * (`order`) plus the map from key to its list. The printing is not modelled.
 */
module Grouping {
  import opened Records

  /** `result.get('source', 'unknown')`. */
  function SourceKey(r: Record): string {
    Field(r, "source", "unknown")
  }

  /** The distinct source keys of `rs`, in order of first appearance. */
  function SourceOrder(rs: seq<Record>): seq<string>
    decreases |rs|
  {
    if rs == [] then []
    else
      var n := |rs| - 1;
      var o := SourceOrder(rs[..n]);
      if SourceKey(rs[n]) in o then o else o + [SourceKey(rs[n])]
  }

  /** The results of `rs` whose source key is `key`, in input order. */
  function Members(rs: seq<Record>, key: string): (m: seq<Record>)
    ensures |m| <= |rs|
    ensures forall i :: 0 <= i < |m| ==> SourceKey(m[i]) == key
    decreases |rs|
  {
    if rs == [] then []
    else
      var n := |rs| - 1;
      Members(rs[..n], key) + (if SourceKey(rs[n]) == key then [rs[n]] else [])
  }

  /** The groups listed in `keys` order, one after the other. */
  function Concat(rs: seq<Record>, keys: seq<string>): seq<Record>
    decreases |keys|
  {
    if keys == [] then [] else Members(rs, keys[0]) + Concat(rs, keys[1..])
  }

  predicate Distinct(keys: seq<string>) {
    forall i, j :: 0 <= i < j < |keys| ==> keys[i] != keys[j]
  }

  /**
   * The loop of `print_results`: open a group the first time a source
   * appears, then append the result to it.
   */
  method GroupBySource(results: seq<Record>) returns (order: seq<string>, groups: map<string, seq<Record>>)
    ensures order == SourceOrder(results)
    ensures forall k :: k in groups <==> k in order
    ensures forall k :: k in groups ==> groups[k] == Members(results, k)
  {
    order, groups := [], map[];
    for i := 0 to |results|
      invariant order == SourceOrder(results[..i])
      invariant forall k :: k in groups <==> k in order
      invariant forall k :: Members(results[..i], k) == (if k in groups then groups[k] else [])
    {
      var key := SourceKey(results[i]);
      PrefixStep(results, i);
      if key !in groups {
        groups := groups[key := []];
        order := order + [key];
      }
      groups := groups[key := groups[key] + [results[i]]];
    }
    assert results[..|results|] == results;
  }

  /** What one more result adds to the key order and to each group. */
  lemma PrefixStep(rs: seq<Record>, i: nat)
    requires i < |rs|
    ensures SourceOrder(rs[..i + 1])
         == (if SourceKey(rs[i]) in SourceOrder(rs[..i]) then SourceOrder(rs[..i])
             else SourceOrder(rs[..i]) + [SourceKey(rs[i])])
    ensures forall k ::
              Members(rs[..i + 1], k) == Members(rs[..i], k) + (if SourceKey(rs[i]) == k then [rs[i]] else [])
  {
    assert rs[..i + 1][..i] == rs[..i];
  }

  /**
   * The key order lists each source key once, and exactly the keys the
   * results carry.
   */
  lemma {:induction false} SourceOrderFacts(rs: seq<Record>)
    ensures Distinct(SourceOrder(rs))
    ensures forall k :: k in SourceOrder(rs) <==> exists i :: 0 <= i < |rs| && SourceKey(rs[i]) == k
    decreases |rs|
  {
    if rs != [] {
      var n := |rs| - 1;
      SourceOrderFacts(rs[..n]);
      assert forall i :: 0 <= i < n ==> rs[..n][i] == rs[i];
    }
  }

  /** The order of a prefix of the results is a prefix of the order. */
  lemma {:induction false} SourceOrderGrowsAtEnd(rs: seq<Record>, p: nat)
    requires p <= |rs|
    ensures SourceOrder(rs[..p]) <= SourceOrder(rs)
    decreases |rs|
  {
    if p < |rs| {
      var n := |rs| - 1;
      assert rs[..n][..p] == rs[..p];
      SourceOrderGrowsAtEnd(rs[..n], p);
    } else {
      assert rs[..p] == rs;
    }
  }

  /**
   * Sources appear in order of first appearance: wherever the `j`-th source
   * occurs, every source listed before it has already occurred.
   */
  lemma FirstAppearanceOrder(rs: seq<Record>, i: nat, j: nat, p: nat)
    requires i < j < |SourceOrder(rs)|
    requires p < |rs| && SourceKey(rs[p]) == SourceOrder(rs)[j]
    ensures exists q :: 0 <= q < p && SourceKey(rs[q]) == SourceOrder(rs)[i]
  {
    var order := SourceOrder(rs);
    var before := SourceOrder(rs[..p]);
    SourceOrderFacts(rs);
    SourceOrderFacts(rs[..p]);
    SourceOrderGrowsAtEnd(rs, p);
    SourceOrderGrowsAtEnd(rs, p + 1);
    assert rs[..p + 1][..p] == rs[..p];
    var key := SourceKey(rs[p]);
    if key in before {
      var j' :| 0 <= j' < |before| && before[j'] == key;
      assert order[j'] == key;
      assert j' == j;
    } else {
      assert SourceOrder(rs[..p + 1]) == before + [key];
      assert order[|before|] == key;
      assert |before| == j;
    }
    assert order[i] == before[i];
    assert order[i] in before;
    var q :| 0 <= q < p && SourceKey(rs[..p][q]) == order[i];
    assert rs[..p][q] == rs[q];
  }

  lemma MembersSnoc(rs: seq<Record>, r: Record, key: string)
    ensures Members(rs + [r], key) == Members(rs, key) + (if SourceKey(r) == key then [r] else [])
  {
    assert (rs + [r])[..|rs|] == rs;
  }

  /** Multiset bookkeeping for appending one element to two disjoint parts. */
  lemma SplitAppend<T>(m0: seq<T>, c0: seq<T>, m1: seq<T>, c1: seq<T>, x: T, hit: bool, later: bool)
    requires !(hit && later)
    requires m1 == m0 + (if hit then [x] else [])
    requires multiset(c1) == multiset(c0) + (if later then multiset{x} else multiset{})
    ensures multiset(m1 + c1) == multiset(m0 + c0) + (if hit || later then multiset{x} else multiset{})
  {
    if hit {
      assert multiset(m1) == multiset(m0) + multiset{x};
    } else {
      assert m1 == m0;
    }
  }

  lemma {:induction false} ConcatSnoc(rs: seq<Record>, r: Record, keys: seq<string>)
    requires Distinct(keys)
    ensures multiset(Concat(rs + [r], keys))
         == multiset(Concat(rs, keys)) + (if SourceKey(r) in keys then multiset{r} else multiset{})
    decreases |keys|
  {
    if keys != [] {
      var tail := keys[1..];
      assert Distinct(tail) by {
        assert forall i :: 0 <= i < |tail| ==> tail[i] == keys[i + 1];
      }
      var key := SourceKey(r);
      var hit := key == keys[0];
      var later := key in tail;
      assert !(hit && later);
      assert key in keys <==> hit || later by {
        assert keys == [keys[0]] + tail;
      }
      ConcatSnoc(rs, r, tail);
      MembersSnoc(rs, r, keys[0]);
      SplitAppend(Members(rs, keys[0]), Concat(rs, tail),
                  Members(rs + [r], keys[0]), Concat(rs + [r], tail), r, hit, later);
    }
  }

  lemma {:induction false} ConcatCovers(rs: seq<Record>, keys: seq<string>)
    requires Distinct(keys)
    requires forall i :: 0 <= i < |rs| ==> SourceKey(rs[i]) in keys
    ensures multiset(Concat(rs, keys)) == multiset(rs)
    decreases |rs|
  {
    if rs == [] {
      ConcatOfNothing(keys);
    } else {
      var n := |rs| - 1;
      var pre := rs[..n];
      assert forall i :: 0 <= i < n ==> SourceKey(pre[i]) in keys by {
        assert forall i :: 0 <= i < n ==> pre[i] == rs[i];
      }
      assert rs == pre + [rs[n]];
      calc {
        multiset(Concat(rs, keys));
        multiset(Concat(pre + [rs[n]], keys));
        { ConcatSnoc(pre, rs[n], keys); }
        multiset(Concat(pre, keys)) + multiset{rs[n]};
        { ConcatCovers(pre, keys); }
        multiset(pre) + multiset{rs[n]};
        multiset(pre + [rs[n]]);
      }
    }
  }

  lemma {:induction false} ConcatOfNothing(keys: seq<string>)
    ensures Concat([], keys) == []
    decreases |keys|
  {
    if keys != [] {
      ConcatOfNothing(keys[1..]);
    }
  }

  /**
   * The groups partition the results: taken in key order, they hold every
   * result exactly as many times as the input does.
   */
  lemma GroupsPartition(rs: seq<Record>)
    ensures multiset(Concat(rs, SourceOrder(rs))) == multiset(rs)
  {
    SourceOrderFacts(rs);
    ConcatCovers(rs, SourceOrder(rs));
  }
}

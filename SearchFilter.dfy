/** Filtering the search index by the text typed into the search box
    (`filterItems`, assets/js/script.js). */
module SearchFilter {
  import opened Text
  import opened SearchIndex

  /** The text a record is searched by: `(title + ' ' + region).toLowerCase()`. */
  function Haystack(r: Record): (h: string)
    ensures |h| == |r.title| + 1 + |r.region|
    ensures h[|r.title|] == ' '
    ensures forall i :: 0 <= i < |h| ==> !IsUpper(h[i])
  {
    ToLower(r.title + " " + r.region)
  }

  /** A record matches a lower-cased query that occurs in its haystack; the empty query
      matches every record. */
  predicate Matches(r: Record, q: string)
    ensures q == [] ==> Matches(r, q)
    ensures Matches(r, q) ==> |q| <= |r.title| + 1 + |r.region|
  {
    Contains(Haystack(r), q)
  }

  /** `Array.prototype.filter` with the match predicate. */
  function KeepMatching(s: seq<Record>, q: string): (r: seq<Record>)
    ensures |r| <= |s|
    ensures forall x | x in r :: x in s && Matches(x, q)
  {
    if s == [] then []
    else (if Matches(s[0], q) then [s[0]] else []) + KeepMatching(s[1..], q)
  }

  lemma KeepMatchingSingle(x: Record, q: string)
    ensures KeepMatching([x], q) == if Matches(x, q) then [x] else []
  {
    assert [x][1..] == [];
  }

  /** `filterItems(query)`: nothing for a blank query, otherwise the matching records. */
  function Filter(index: seq<Record>, query: string): (r: seq<Record>)
    ensures Normalize(query) == [] ==> r == []
    ensures forall x | x in r :: x in index && Matches(x, Normalize(query))
  {
    var q := Normalize(query);
    if q == [] then [] else KeepMatching(index, q)
  }

  // ---------------------------------------------------------------------
  // The filter is an exact, order-preserving selection

  function Shift(p: seq<nat>): (r: seq<nat>)
    ensures |r| == |p| && forall k :: 0 <= k < |p| ==> r[k] == p[k] + 1
  {
    seq(|p|, k requires 0 <= k < |p| => p[k] + 1)
  }

  /** The positions of the matching records, in increasing order. */
  ghost function MatchPositions(s: seq<Record>, q: string): seq<nat> {
    if s == [] then []
    else (if Matches(s[0], q) then [0] else []) + Shift(MatchPositions(s[1..], q))
  }

  /** `r` lists the records of `s` at positions `pos`. */
  ghost predicate PicksAt(s: seq<Record>, r: seq<Record>, pos: seq<nat>) {
    |pos| == |r| && forall k :: 0 <= k < |pos| ==> pos[k] < |s| && r[k] == s[pos[k]]
  }

  ghost predicate StrictlyIncreasing(pos: seq<nat>) {
    forall k, l :: 0 <= k < l < |pos| ==> pos[k] < pos[l]
  }

  /** `pos` holds exactly the positions of the records of `s` that match `q`. */
  ghost predicate MatchesExactlyAt(s: seq<Record>, pos: seq<nat>, q: string) {
    forall i :: 0 <= i < |s| ==> (Matches(s[i], q) <==> i in pos)
  }

  /** `r` lists `s` at the strictly increasing positions `pos`, and those are exactly the
      positions of the records of `s` that match `q`: every match once, in index order,
      and nothing else. */
  ghost predicate ExactSelection(s: seq<Record>, r: seq<Record>, pos: seq<nat>, q: string) {
    PicksAt(s, r, pos) && StrictlyIncreasing(pos) && MatchesExactlyAt(s, pos, q)
  }

  lemma ShiftMembers(p: seq<nat>)
    ensures forall i: nat :: i in Shift(p) <==> i >= 1 && i - 1 in p
  {
    var sh := Shift(p);
    forall i: nat
      ensures i in sh <==> i >= 1 && i - 1 in p
    {
      if i in sh {
        var k :| 0 <= k < |sh| && sh[k] == i;
        assert p[k] == i - 1;
      }
      if i >= 1 && i - 1 in p {
        var k :| 0 <= k < |p| && p[k] == i - 1;
        assert sh[k] == i;
      }
    }
  }

  lemma {:induction false} KeepMatchingPicks(s: seq<Record>, q: string)
    ensures PicksAt(s, KeepMatching(s, q), MatchPositions(s, q))
    decreases |s|
  {
    if s != [] {
      var tail, tp := KeepMatching(s[1..], q), MatchPositions(s[1..], q);
      KeepMatchingPicks(s[1..], q);
      var h := if Matches(s[0], q) then 1 else 0;
      var r, pos := KeepMatching(s, q), MatchPositions(s, q);
      assert r == (if h == 1 then [s[0]] else []) + tail;
      assert pos == (if h == 1 then [0] else []) + Shift(tp);
      forall k | 0 <= k < |pos|
        ensures pos[k] < |s| && r[k] == s[pos[k]]
      {
        if k >= h {
          assert pos[k] == tp[k - h] + 1;
          assert r[k] == tail[k - h] == s[1..][tp[k - h]];
        }
      }
    }
  }

  lemma {:induction false} MatchPositionsIncrease(s: seq<Record>, q: string)
    ensures StrictlyIncreasing(MatchPositions(s, q))
    decreases |s|
  {
    if s != [] {
      var tp := MatchPositions(s[1..], q);
      MatchPositionsIncrease(s[1..], q);
      var h := if Matches(s[0], q) then 1 else 0;
      var pos := MatchPositions(s, q);
      assert pos == (if h == 1 then [0] else []) + Shift(tp);
      forall k, l | 0 <= k < l < |pos|
        ensures pos[k] < pos[l]
      {
        assert pos[l] == tp[l - h] + 1;
        if k >= h {
          assert pos[k] == tp[k - h] + 1;
        }
      }
    }
  }

  lemma {:induction false} MatchPositionsExact(s: seq<Record>, q: string)
    ensures MatchesExactlyAt(s, MatchPositions(s, q), q)
    decreases |s|
  {
    if s != [] {
      var tp := MatchPositions(s[1..], q);
      MatchPositionsExact(s[1..], q);
      ShiftMembers(tp);
      var pos := MatchPositions(s, q);
      assert pos == (if Matches(s[0], q) then [0] else []) + Shift(tp);
      forall i | 0 <= i < |s|
        ensures Matches(s[i], q) <==> i in pos
      {
        if i > 0 {
          assert s[i] == s[1..][i - 1];
          assert i in pos <==> i in Shift(tp);
        }
      }
    }
  }

  /** For a non-blank query the filter keeps exactly the matching records, each once, in order. */
  lemma FilterExact(index: seq<Record>, query: string)
    requires Normalize(query) != []
    ensures ExactSelection(index, Filter(index, query), MatchPositions(index, Normalize(query)), Normalize(query))
  {
    KeepMatchingPicks(index, Normalize(query));
    MatchPositionsIncrease(index, Normalize(query));
    MatchPositionsExact(index, Normalize(query));
  }

  /** A blank query (empty or all whitespace) finds nothing. */
  lemma FilterBlankQuery(index: seq<Record>, query: string)
    requires forall i :: 0 <= i < |query| ==> IsSpace(query[i])
    ensures Filter(index, query) == []
  {
    NormalizeEmptyIff(query);
  }

  /** Surrounding whitespace and letter case of the query do not change the result. */
  lemma FilterNormalized(index: seq<Record>, query: string)
    ensures Filter(index, Normalize(query)) == Filter(index, query)
    ensures Filter(index, Trim(ToLower(query))) == Filter(index, query)
  {
    NormalizeIdempotent(query);
    FilterSameQuery(index, Normalize(query), query);
    TrimLowerCommute(query);
    assert Normalize(Trim(ToLower(query))) == Normalize(query);
    FilterSameQuery(index, Trim(ToLower(query)), query);
  }

  lemma FilterSameQuery(index: seq<Record>, a: string, b: string)
    requires Normalize(a) == Normalize(b)
    ensures Filter(index, a) == Filter(index, b)
  {
  }

  /** A list whose records all match is kept whole. */
  lemma {:induction false} KeepMatchingAllMatch(s: seq<Record>, q: string)
    requires forall x | x in s :: Matches(x, q)
    ensures KeepMatching(s, q) == s
    decreases |s|
  {
    if s != [] {
      KeepMatchingAllMatch(s[1..], q);
      assert Matches(s[0], q);
    }
  }

  /** Filtering an already filtered list with the same query returns it unchanged. */
  lemma FilterRefilter(index: seq<Record>, query: string)
    ensures Filter(Filter(index, query), query) == Filter(index, query)
  {
    if Normalize(query) != [] {
      KeepMatchingAllMatch(Filter(index, query), Normalize(query));
    }
  }

  // ---------------------------------------------------------------------
  // What a query finds

  /** A record matches every query that occurs in its lower-cased title or region. */
  lemma MatchesByTitleOrRegion(r: Record, q: string)
    requires Contains(ToLower(r.title), q) || Contains(ToLower(r.region), q)
    ensures Matches(r, q)
  {
    ToLowerConcat(r.title + " ", r.region);
    ToLowerConcat(r.title, " ");
    if Contains(ToLower(r.title), q) {
      ContainsInContext([], ToLower(r.title), ToLower(" ") + ToLower(r.region), q);
      assert [] + ToLower(r.title) + (ToLower(" ") + ToLower(r.region)) == Haystack(r);
    } else {
      ContainsInContext(ToLower(r.title) + ToLower(" "), ToLower(r.region), [], q);
      assert ToLower(r.title) + ToLower(" ") + ToLower(r.region) + [] == Haystack(r);
    }
  }

  /** Filtering never drops a matching record. */
  lemma {:induction false} KeepMatchingKeeps(s: seq<Record>, q: string, r: Record)
    requires r in s && Matches(r, q)
    ensures r in KeepMatching(s, q)
    decreases |s|
  {
    if s[0] != r {
      KeepMatchingKeeps(s[1..], q, r);
    }
  }

  /** A record of the index is found by any non-blank query that occurs in its title or its
      region, ignoring case and the query's surrounding whitespace. */
  lemma FoundByTitleOrRegion(index: seq<Record>, r: Record, query: string)
    requires r in index && Normalize(query) != []
    requires Contains(ToLower(r.title), Normalize(query)) || Contains(ToLower(r.region), Normalize(query))
    ensures r in Filter(index, query)
  {
    MatchesByTitleOrRegion(r, Normalize(query));
    KeepMatchingKeeps(index, Normalize(query), r);
  }

  /** A package is found by any non-blank query occurring in one of its meta texts. */
  lemma PackageFoundByMeta(index: seq<Record>, c: PackageCard, k: nat, query: string)
    requires PackageRecord(c) in index && k < |c.meta| && Normalize(query) != []
    requires Contains(ToLower(Trim(c.meta[k])), Normalize(query))
    ensures PackageRecord(c) in Filter(index, query)
  {
    var r := PackageRecord(c);
    PackageRegionHoldsMeta(c, k);
    LowerKeepsContains(r.region, Trim(c.meta[k]));
    ContainsTrans(ToLower(r.region), ToLower(Trim(c.meta[k])), Normalize(query));
    FoundByTitleOrRegion(index, r, query);
  }
}

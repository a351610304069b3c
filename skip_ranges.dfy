/**
 * The read walks of sortedset/sortedset.go over the values of the set's
 * fields: the top-down searches of GetByScoreRange, GetByRankRange and
 * FindRank, the level-0 walks forward and backward that collect their
 * results, the removal loop of GetByRankRange and the in-place reversal of
 * its result.
 */
module SkipRanges {
  import opened Entries
  import opened SkipShape
  import opened SkipLinks
  import opened SkipSteps
  import opened SkipOps

  /**
   * The top-down search without update[] (lines 262-275, 301-315): on every
   * level follow links while the next node satisfies P. With P true of
   * exactly the first p members it stops at position p, with rank p.
   */
  method Find<V>(nodes: seq<Node<V>>, ghost order: seq<int>, top: int, P: (int, string) -> bool, ghost p: int)
    returns (x: int)
    requires Shape(nodes, order) && LevelsUpTo(nodes, order, top) && 1 <= top <= MaxLevel
    requires 0 <= p <= |order| && Splits(nodes, order, P, p)
    ensures x == At(order, p)
  {
    ghost var hs := Heights(nodes, order);
    x := 0;
    var r := 0;
    var i := top - 1;
    while i >= 0
      invariant -1 <= i < top && 0 <= r <= p && x == At(order, r)
      invariant i >= 0 ==> hs[r] > i
      invariant i < top - 1 ==> IsUpdate(hs, i + 1, p, r)
    {
      r, x := Advance(nodes, order, top, P, p, i, r, x);
      i := i - 1;
    }
    NextUpBottom(hs, r);
  }

  lemma ReverseStep<T>(s: seq<T>, k: int, q: int)
    requires 1 <= k <= q <= |s|
    ensures Reverse(s[k - 1..q]) == Reverse(s[k..q]) + [s[k - 1]]
  {
    assert s[k - 1..q][1..] == s[k..q];
  }

  lemma ReversePrefix<T>(s: seq<T>, p: int, k: int, q: int)
    requires 0 <= p <= k <= q <= |s|
    ensures Reverse(s[p..q])[..q - k] == Reverse(s[k..q])
  {
    var a, b := Reverse(s[p..q]), Reverse(s[k..q]);
    forall i | 0 <= i < q - k ensures a[i] == b[i] {
      ReverseAt(s[p..q], i);
      ReverseAt(s[k..q], i);
    }
  }

  /** A walk from q that stopped at k, at the window's end m or after n steps, took the first n of s[q..m]. */
  lemma CutWindow<T>(s: seq<T>, q: int, m: int, k: int, n: int)
    requires 0 <= q <= k <= |s| && 0 <= m <= |s| && (k == q || k <= m) && 0 < n && k - q <= n
    requires k - q == n || k >= m
    ensures s[q..k] == Take(if q <= m then s[q..m] else [], n)
  {
  }

  /** The upper-bound test of the walks: below `bound`, or at it when the bound is included. */
  predicate Under(score: int, bound: int, exclusive: bool)
  {
    if exclusive then score < bound else score <= bound
  }

  /** Exactly the first m members pass the upper-bound test. */
  ghost predicate CutAt<V>(nodes: seq<Node<V>>, order: seq<int>, hi: int, exHi: bool, m: int)
    requires Chain(order, |nodes|)
  {
    && 0 <= m <= |order|
    && forall j :: 0 <= j < |order| ==> (Under(nodes[order[j]].score, hi, exHi) <==> j < m)
  }

  /**
   * What the level-0 walks rely on, with the entries s they read: every
   * member's node is in the arena and carries entry s[i], and every
   * position's level-0 link leads to the next position (nil after the last).
   */
  ghost predicate Walk<V>(nodes: seq<Node<V>>, order: seq<int>, s: seq<Entry<V>>)
  {
    && 1 <= |nodes| && |s| == |order|
    && (forall i :: 0 <= i < |order| ==> 1 <= order[i] < |nodes|)
    && (forall i :: 0 <= i < |order| ==> s[i] == Entry(nodes[order[i]].score, nodes[order[i]].key, nodes[order[i]].value))
    && 1 <= |nodes[0].forward| && nodes[0].forward[0] == (if 0 < |order| then order[0] else Nil)
    && (forall i :: 0 <= i < |order| ==>
          1 <= |nodes[order[i]].forward| && nodes[order[i]].forward[0] == if i + 1 < |order| then order[i + 1] else Nil)
  }

  lemma WalkOf<V>(nodes: seq<Node<V>>, order: seq<int>)
    requires Shape(nodes, order) && LevelOk(nodes, order, 0)
    ensures Walk(nodes, order, EntriesOf(nodes, order))
  {
    BottomLevel(nodes, order, 0);
    forall i | 0 <= i < |order|
      ensures 1 <= |nodes[order[i]].forward| && nodes[order[i]].forward[0] == if i + 1 < |order| then order[i + 1] else Nil
    {
      BottomLevel(nodes, order, i + 1);
    }
  }

  /**
   * The ascending walk of GetByScoreRange (lines 318-336): from position q,
   * the last member below the lower bound, collect members along level 0
   * while they pass the upper-bound test, at most limit0 of them. The first
   * m members pass that test, so the walk takes the first limit0 of s[q..m].
   */
  method CollectUp<V>(nodes: seq<Node<V>>, ghost order: seq<int>, ghost s: seq<Entry<V>>, ghost q: int, x0: int,
                      hi: int, exHi: bool, limit0: int, ghost m: int)
    returns (out: seq<Entry<V>>)
    requires Walk(nodes, order, s)
    requires 0 <= q <= |order| && x0 == At(order, q) && limit0 > 0
    requires 0 <= m <= |s| && forall j :: 0 <= j < |s| ==> (Under(s[j].score, hi, exHi) <==> j < m)
    ensures out == Take(if q <= m then s[q..m] else [], limit0)
  {
    var x := nodes[x0].forward[0];
    var limit := limit0;
    out := [];
    ghost var k := q;
    while x != Nil && limit > 0
      invariant q <= k <= |order| && x == (if k < |order| then order[k] else Nil)
      invariant out == s[q..k] && limit == limit0 - (k - q) && limit >= 0
      invariant k == q || k <= m
      decreases |order| - k
    {
      if !Under(nodes[x].score, hi, exHi) {
        break;
      }
      assert s[q..k + 1] == s[q..k] + [s[k]];
      out := out + [Entry(nodes[x].score, nodes[x].key, nodes[x].value)];
      limit := limit - 1;
      assert nodes[order[k]].forward[0] == if k + 1 < |order| then order[k + 1] else Nil;
      x := nodes[x].forward[0];
      k := k + 1;
    }
    CutWindow(s, q, m, k, limit0);
  }

  /** The lower-bound test of the descending walk: above `bound`, or at it when the bound is included. */
  predicate Over(score: int, bound: int, exclusive: bool)
  {
    if exclusive then score > bound else score >= bound
  }

  /** The backward links the descending walk follows: each member to its predecessor, the first and the header to nil. */
  ghost predicate WalkBack<V>(nodes: seq<Node<V>>, order: seq<int>)
    requires 1 <= |nodes| && forall i :: 0 <= i < |order| ==> 1 <= order[i] < |nodes|
  {
    && nodes[0].backward == Nil
    && forall i :: 0 <= i < |order| ==> nodes[order[i]].backward == if i == 0 then Nil else order[i - 1]
  }

  lemma WalkBackOf<V>(nodes: seq<Node<V>>, order: seq<int>)
    requires Shape(nodes, order) && LevelOk(nodes, order, 0) && HeaderOk(nodes) && BackwardOk(nodes, order)
    ensures Walk(nodes, order, EntriesOf(nodes, order)) && WalkBack(nodes, order)
  {
    WalkOf(nodes, order);
  }

  /** A descending walk from q that stopped at k, at the window's start p or after n steps, took the first n of the reversed s[p..q]. */
  lemma CutWindowDown<T>(s: seq<T>, p: int, k: int, q: int, n: int)
    requires 0 <= k <= q <= |s| && 0 <= p && (k == q || p <= k) && 0 < n && q - k <= n
    requires q - k == n || k <= p
    ensures Reverse(s[k..q]) == Take(Reverse(if p <= q then s[p..q] else []), n)
  {
    if p <= q {
      ReversePrefix(s, p, k, q);
    }
  }

  /**
   * The descending walk of GetByScoreRange (lines 277-293): from position
   * q, the last member within the upper bound, collect members along the
   * backward links while they pass the lower-bound test, at most limit0 of
   * them. The first p members fail that test, so the walk takes the first
   * limit0 of s[p..q] reversed. When the search stopped at the header
   * (q == 0) the walk starts there: the header's own score is tested and,
   * if it passes, the header is collected. With `throughHeader` false the
   * walk never collects the header.
   */
  method CollectDown<V>(nodes: seq<Node<V>>, ghost order: seq<int>, ghost s: seq<Entry<V>>, ghost q: int, x0: int,
                        lo: int, exLo: bool, limit0: int, ghost p: int, throughHeader: bool)
    returns (out: seq<Entry<V>>)
    requires Walk(nodes, order, s) && WalkBack(nodes, order)
    requires 0 <= q <= |order| && x0 == At(order, q) && limit0 > 0
    requires 0 <= p <= |s| && forall j :: 0 <= j < |s| ==> (Over(s[j].score, lo, exLo) <==> p <= j)
    ensures out == Take(Reverse(if p <= q then s[p..q] else []), limit0)
                   + (if throughHeader && q == 0 && Over(nodes[0].score, lo, exLo)
                      then [Entry(nodes[0].score, nodes[0].key, nodes[0].value)] else [])
  {
    ghost var header := Entry(nodes[0].score, nodes[0].key, nodes[0].value);
    var x := x0;
    var limit := limit0;
    out := [];
    ghost var k := q;
    while x != Nil && limit > 0 && (throughHeader || x != 0)
      invariant -1 <= k <= q
      invariant x == if k >= 1 then order[k - 1] else if k == 0 && q == 0 then 0 else Nil
      invariant k >= 0 ==> out == Reverse(s[k..q]) && limit == limit0 - (q - k)
      invariant k < 0 ==> q == 0 && throughHeader && Over(nodes[0].score, lo, exLo) && out == [header]
      invariant 0 <= k < q ==> p <= k
      invariant limit >= 0
      decreases k
    {
      if !Over(nodes[x].score, lo, exLo) {
        break;
      }
      var next := nodes[x].backward;
      if k >= 1 {
        assert s[k - 1] == Entry(nodes[x].score, nodes[x].key, nodes[x].value);
        assert p <= k - 1;
        assert next == if k == 1 then Nil else order[k - 2];
        ReverseStep(s, k, q);
      }
      out := out + [Entry(nodes[x].score, nodes[x].key, nodes[x].value)];
      limit := limit - 1;
      x := next;
      k := k - 1;
    }
    if k >= 0 {
      assert k == q || p <= k;
      CutWindowDown(s, p, k, q, limit0);
    }
  }

  /** In a sorted list exactly the members before the upper prefix pass the upper-bound test. */
  lemma UnderSplits<V>(s: seq<Entry<V>>, hi: int, exHi: bool)
    requires Sorted(s)
    ensures forall j :: 0 <= j < |s| ==> (Under(s[j].score, hi, exHi) <==> j < PrefixLen(s, ScoreBelow(hi, !exHi)))
  {
    ScoreBelowMonotone(hi, !exHi);
    PrefixSplit(s, ScoreBelow(hi, !exHi));
  }

  /** In a sorted list exactly the members from the lower prefix on pass the lower-bound test. */
  lemma OverSplits<V>(s: seq<Entry<V>>, lo: int, exLo: bool)
    requires Sorted(s)
    ensures forall j :: 0 <= j < |s| ==> (Over(s[j].score, lo, exLo) <==> PrefixLen(s, ScoreBelow(lo, exLo)) <= j)
  {
    ScoreBelowMonotone(lo, exLo);
    PrefixSplit(s, ScoreBelow(lo, exLo));
  }

  /** The ascending half of GetByScoreRange (lines 299-336): search for the lower bound, then walk up. */
  method ScoreRangeUp<V>(nodes: seq<Node<V>>, ghost order: seq<int>, level: int, ghost length: int, ghost tail: int,
                         ghost dict: map<string, int>, lo: int, hi: int, exLo: bool, exHi: bool, limit: int)
    returns (r: seq<Entry<V>>)
    requires Good(nodes, order, level, length, tail, dict) && limit > 0
    ensures r == Take(ScoreWindow(EntriesOf(nodes, order), lo, hi, exLo, exHi), limit)
  {
    ghost var s := EntriesOf(nodes, order);
    ghost var p := PrefixLen(s, ScoreBelow(lo, exLo));
    ScoreBelowMonotone(lo, exLo);
    SplitsAtPrefix(nodes, order, ScoreBelow(lo, exLo));
    var x := Find(nodes, order, level, ScoreBelow(lo, exLo), p);
    UnderSplits(s, hi, exHi);
    WalkOf(nodes, order);
    r := CollectUp(nodes, order, s, p, x, hi, exHi, limit, PrefixLen(s, ScoreBelow(hi, !exHi)));
  }

  /**
   * The descending half of GetByScoreRange (lines 262-297): search for the
   * upper bound, then walk back; when no member lies within the upper bound
   * the walk starts at the header, which `throughHeader` lets it collect.
   */
  method ScoreRangeDown<V>(nodes: seq<Node<V>>, ghost order: seq<int>, level: int, ghost length: int, ghost tail: int,
                           ghost dict: map<string, int>, lo: int, hi: int, exLo: bool, exHi: bool, limit: int,
                           throughHeader: bool)
    returns (r: seq<Entry<V>>)
    requires Good(nodes, order, level, length, tail, dict) && limit > 0
    ensures r == Take(Reverse(ScoreWindow(EntriesOf(nodes, order), lo, hi, exLo, exHi)), limit)
                 + (if throughHeader && PrefixLen(EntriesOf(nodes, order), ScoreBelow(hi, !exHi)) == 0 && Over(0, lo, exLo)
                    then [Entry(0, "", nodes[0].value)] else [])
  {
    ghost var s := EntriesOf(nodes, order);
    ghost var q := PrefixLen(s, ScoreBelow(hi, !exHi));
    ScoreBelowMonotone(hi, !exHi);
    SplitsAtPrefix(nodes, order, ScoreBelow(hi, !exHi));
    var x := Find(nodes, order, level, ScoreBelow(hi, !exHi), q);
    OverSplits(s, lo, exLo);
    WalkBackOf(nodes, order);
    r := CollectDown(nodes, order, s, q, x, lo, exLo, limit, PrefixLen(s, ScoreBelow(lo, exLo)), throughHeader);
  }

  lemma EmptyIsRange<V>(s: seq<Entry<V>>, header: Entry<V>, start: int, end: int, options: Option<RangeOptions>)
    requires s == []
    ensures ScoreRangeAsWritten(s, header, start, end, options) == [] && ScoreRange(s, start, end, options) == []
  {
  }

  lemma DownIsRange<V>(s: seq<Entry<V>>, header: Entry<V>, start: int, end: int, options: Option<RangeOptions>,
                      throughHeader: bool, r: seq<Entry<V>>)
    requires start > end && |s| > 0
    requires r == Take(Reverse(ScoreWindow(s, end, start, ExcludeEnd(options), ExcludeStart(options))), LimitOf(options))
                  + (if throughHeader && PrefixLen(s, ScoreBelow(start, !ExcludeStart(options))) == 0 && Over(0, end, ExcludeEnd(options))
                     then [header] else [])
    ensures throughHeader ==> r == ScoreRangeAsWritten(s, header, start, end, options)
    ensures !throughHeader ==> r == ScoreRange(s, start, end, options)
  {
  }

  lemma UpIsRange<V>(s: seq<Entry<V>>, header: Entry<V>, start: int, end: int, options: Option<RangeOptions>,
                    throughHeader: bool, r: seq<Entry<V>>)
    requires start <= end
    requires r == Take(ScoreWindow(s, start, end, ExcludeStart(options), ExcludeEnd(options)), LimitOf(options))
    ensures throughHeader ==> r == ScoreRangeAsWritten(s, header, start, end, options)
    ensures !throughHeader ==> r == ScoreRange(s, start, end, options)
  {
  }

  /**
   * GetByScoreRange (lines 239-344) on the values of the set's fields. With
   * `throughHeader` it is the code as written, whose descending walk can
   * hand back the header; without, the intended score range.
   */
  method ScoreRangeQuery<V>(nodes: seq<Node<V>>, ghost order: seq<int>, level: int, length: int, ghost tail: int,
                            ghost dict: map<string, int>, start: int, end: int, options: Option<RangeOptions>,
                            throughHeader: bool)
    returns (r: seq<Entry<V>>)
    requires Good(nodes, order, level, length, tail, dict)
    ensures throughHeader ==> r == ScoreRangeAsWritten(EntriesOf(nodes, order), Entry(0, "", nodes[0].value), start, end, options)
    ensures !throughHeader ==> r == ScoreRange(EntriesOf(nodes, order), start, end, options)
  {
    var limit := DefaultLimit;
    if options.Some? && options.value.limit > 0 {
      limit := options.value.limit;
    }
    var excludeStart := options.Some? && options.value.excludeStart;
    var excludeEnd := options.Some? && options.value.excludeEnd;
    var reverse := start > end;
    var lo, hi := start, end;
    if reverse {
      lo, hi := end, start;
      excludeStart, excludeEnd := excludeEnd, excludeStart;
    }
    ghost var s := EntriesOf(nodes, order);
    if length == 0 {
      EmptyIsRange(s, Entry(0, "", nodes[0].value), start, end, options);
      return [];
    }
    if reverse {
      r := ScoreRangeDown(nodes, order, level, length, tail, dict, lo, hi, excludeStart, excludeEnd, limit, throughHeader);
      DownIsRange(s, Entry(0, "", nodes[0].value), start, end, options, throughHeader, r);
    } else {
      r := ScoreRangeUp(nodes, order, level, length, tail, dict, lo, hi, excludeStart, excludeEnd, limit);
      UpIsRange(s, Entry(0, "", nodes[0].value), start, end, options, throughHeader, r);
    }
  }
}

/**
 * The rank walks of sortedset/sortedset.go over the values of the set's
 * fields: GetByRankRange's top-down search by accumulated span, its level-0
 * walk that collects (and with `remove` deletes) the members of the window,
 * and the reversal of its result.
 */
module SkipRanks {
  import opened Entries
  import opened SkipShape
  import opened SkipLinks
  import opened SkipSteps
  import opened SkipOps
  import opened SkipRanges

  /** The smaller of two integers. */
  function Min(a: int, b: int): (r: int)
    ensures r <= a && r <= b && (r == a || r == b)
  {
    if a <= b then a else b
  }

  /**
   * One level of GetByRankRange's search (lines 371-375): follow level-i
   * links while the rank they reach stays below `start`. With t the last
   * rank below start (or the count), it stops at t's level-i predecessor.
   */
  method RankAdvance<V>(nodes: seq<Node<V>>, ghost order: seq<int>, top: int, start: int, ghost t: int,
                        i: int, traversed0: int, x0: int)
    returns (traversed: int, x: int)
    requires Shape(nodes, order) && LevelsUpTo(nodes, order, top)
    requires start >= 1 && t == Min(start - 1, |order|)
    requires 0 <= i < top && 0 <= traversed0 <= t && x0 == At(order, traversed0) && Heights(nodes, order)[traversed0] > i
    ensures traversed0 <= traversed <= t && x == At(order, traversed) && Heights(nodes, order)[traversed] > i
    ensures IsUpdate(Heights(nodes, order), i, t, traversed)
  {
    hide Heights, LevelsUpTo, IsUpdate;
    ghost var hs := Heights(nodes, order);
    traversed, x := traversed0, x0;
    WalkStep(nodes, order, top, i, traversed, t);
    while nodes[x].forward[i] != Nil && traversed + nodes[x].span[i] < start
      invariant traversed0 <= traversed <= t && x == At(order, traversed) && hs[traversed] > i
      invariant i < |nodes[x].forward| && i < |nodes[x].span|
      invariant nodes[x].forward[i] != Nil ==>
        && traversed < traversed + nodes[x].span[i] <= |order|
        && nodes[x].forward[i] == order[traversed + nodes[x].span[i] - 1]
        && hs[traversed + nodes[x].span[i]] > i
      invariant nodes[x].forward[i] == Nil || traversed + nodes[x].span[i] > t ==> IsUpdate(hs, i, t, traversed)
      decreases |order| - traversed
    {
      traversed := traversed + nodes[x].span[i];
      x := nodes[x].forward[i];
      WalkStep(nodes, order, top, i, traversed, t);
    }
  }

  /**
   * The search of GetByRankRange (lines 368-385): it stops at rank
   * min(start - 1, count), the member before the window or the header. With
   * `remove` it records every level's predecessor of that gap in update[];
   * without, it may stop early once the rank is reached.
   */
  method RankSearch<V>(nodes: seq<Node<V>>, ghost order: seq<int>, top: int, start: int, remove: bool)
    returns (x: int, traversed: int, update: seq<int>, ghost rank: seq<int>)
    requires Shape(nodes, order) && LevelsUpTo(nodes, order, top) && 1 <= top <= MaxLevel && start >= 1
    ensures traversed == Min(start - 1, |order|) && x == At(order, traversed)
    ensures remove ==> UpdatesOk(Heights(nodes, order), order, update, rank, traversed, top)
  {
    hide Heights, LevelsUpTo;
    ghost var hs := Heights(nodes, order);
    ghost var t := Min(start - 1, |order|);
    update := seq(MaxLevel, _ => Nil);
    rank := seq(MaxLevel, _ => 0);
    x := 0;
    traversed := 0;
    var i := top - 1;
    while i >= 0
      invariant -1 <= i < top && 0 <= traversed <= t && x == At(order, traversed)
      invariant i >= 0 ==> hs[traversed] > i
      invariant i < top - 1 ==> IsUpdate(hs, i + 1, t, traversed)
      invariant |update| == MaxLevel && |rank| == MaxLevel
      invariant remove ==> forall l :: i < l < top ==>
        0 <= rank[l] <= t && update[l] == At(order, rank[l]) && IsUpdate(hs, l, t, rank[l])
    {
      traversed, x := RankAdvance(nodes, order, top, start, t, i, traversed, x);
      if remove {
        update := update[i := x];
        rank := rank[i := traversed];
      } else {
        if traversed + 1 == start {
          break;
        }
      }
      i := i - 1;
    }
    if traversed != t {
      NextUpBottom(hs, traversed);
    }
  }

  /**
   * The collecting walk of GetByRankRange without removal (lines 387-400):
   * from rank t, take the members of ranks t + 1 .. end.
   */
  method CollectRanks<V>(nodes: seq<Node<V>>, ghost order: seq<int>, ghost s: seq<Entry<V>>, t: int, x0: int, end: int)
    returns (out: seq<Entry<V>>)
    requires Walk(nodes, order, s) && 0 <= t <= |order| && x0 == At(order, t)
    ensures var e := if t < end then Min(end, |s|) else t;
      out == s[t..e]
  {
    var traversed := t + 1;
    var x := nodes[x0].forward[0];
    out := [];
    while x != Nil && traversed <= end
      invariant t + 1 <= traversed <= |order| + 1 && x == (if traversed - 1 < |order| then order[traversed - 1] else Nil)
      invariant t < end ==> traversed - 1 <= Min(end, |s|)
      invariant out == s[t..traversed - 1]
      invariant t >= end ==> traversed == t + 1
      decreases |order| + 1 - traversed
    {
      var k := traversed - 1;
      var next := nodes[x].forward[0];
      assert next == if k + 1 < |order| then order[k + 1] else Nil;
      assert s[t..k + 1] == s[t..k] + [s[k]];
      out := out + [Entry(nodes[x].score, nodes[x].key, nodes[x].value)];
      traversed := traversed + 1;
      x := next;
    }
  }

  /**
   * Deleting the member at position t + 1 leaves update[] valid for the
   * member that takes its place: the predecessors all sit at or before
   * rank t and keep their heights.
   */
  lemma UpdatesAfterDelete<V>(n0: seq<Node<V>>, nodes: seq<Node<V>>, order: seq<int>, update: seq<int>,
                              rank: seq<int>, t: int, level: int, level': int)
    requires Shape(n0, order) && 0 <= t < |order| && Shape(nodes, OrderDel(order, t))
    requires |n0| <= |nodes| && forall a :: 0 <= a < |n0| ==> |nodes[a].forward| == |n0[a].forward|
    requires UpdatesOk(Heights(n0, order), order, update, rank, t, level) && 0 <= level' <= level
    ensures UpdatesOk(Heights(nodes, OrderDel(order, t)), OrderDel(order, t), update, rank, t, level')
  {
    var o := OrderDel(order, t);
    var hs := Heights(n0, order);
    ShapeDel(n0, order, t);
    var hs' := Heights(nodes, o);
    assert hs' == Heights(n0, o) by {
      OrderDelIndex(order, t);
      forall q | 0 <= q < |hs'| ensures hs'[q] == Heights(n0, o)[q] {
      }
    }
    forall l | 0 <= l < level'
      ensures 0 <= rank[l] <= t && update[l] == At(o, rank[l]) && IsUpdate(hs', l, t, rank[l])
    {
      AtDel(order, t, rank[l]);
      NextUpDelBefore(hs, t, l, rank[l]);
    }
  }

  /** The successor of the member at position t + 1 is the member at that position once it is gone. */
  lemma SuccessorAfterDelete<V>(nodes: seq<Node<V>>, order: seq<int>, t: int)
    requires Shape(nodes, order) && LevelOk(nodes, order, 0) && 0 <= t < |order|
    ensures var o := OrderDel(order, t);
      nodes[order[t]].forward[0] == if t < |o| then o[t] else Nil
  {
    BottomLevel(nodes, order, t + 1);
    OrderDelIndex(order, t);
  }

  /**
   * One step of GetByRankRange's walk with removal (lines 389-395): note the
   * member x at position t + 1, delete it with the update[] of the search,
   * and move on to its successor, which now sits at position t + 1.
   */
  method RemoveStep<V>(n0: seq<Node<V>>, ghost o0: seq<int>, level0: int, length0: int, tail0: int,
                       dict0: map<string, int>, ghost t: int, x: int, update: seq<int>, ghost rank: seq<int>)
    returns (next: int, e: Entry<V>, nodes: seq<Node<V>>, level: int, length: int, tail: int,
             dict: map<string, int>, ghost order: seq<int>)
    requires Good(n0, o0, level0, length0, tail0, dict0) && 0 <= t < |o0| && x == o0[t]
    requires UpdatesOk(Heights(n0, o0), o0, update, rank, t, level0)
    ensures Good(nodes, order, level, length, tail, dict) && 1 <= level <= level0
    ensures e == EntriesOf(n0, o0)[t] && EntriesOf(nodes, order) == RemoveAt(EntriesOf(n0, o0), t)
    ensures next == if t < |order| then order[t] else Nil
    ensures UpdatesOk(Heights(nodes, order), order, update, rank, t, level)
  {
    SuccessorAfterDelete(n0, o0, t);
    next := n0[x].forward[0];
    e := Entry(n0[x].score, n0[x].key, n0[x].value);
    nodes, level, tail, dict := DeleteNode(n0, o0, level0, length0, tail0, dict0, t, x, update, rank);
    length := length0 - 1;
    order := OrderDel(o0, t);
    UpdatesAfterDelete(n0, nodes, o0, update, rank, t, level0, level);
  }

  /** Before the walk nothing is taken and everything is left. */
  lemma TakeNone<V>(s: seq<Entry<V>>, t: int)
    requires 0 <= t <= |s|
    ensures s[t..t] == [] && s == s[..t] + s[t..]
  {
  }

  /** Taking the member at rank k + 1 extends what was taken by s[k]. */
  lemma TakeNext<V>(s: seq<Entry<V>>, t: int, k: int, out: seq<Entry<V>>, e: Entry<V>)
    requires 0 <= t <= k < |s| && out == s[t..k] && e == s[k]
    ensures out + [e] == s[t..k + 1]
  {
  }

  /** Removing the member after the gap at t, when s[k..] is left after it, leaves s[k + 1..]. */
  lemma DropNext<V>(s: seq<Entry<V>>, t: int, k: int, before: seq<Entry<V>>, after: seq<Entry<V>>)
    requires 0 <= t <= k < |s| && before == s[..t] + s[k..] && after == RemoveAt(before, t)
    ensures before[t] == s[k] && after == s[..t] + s[k + 1..]
  {
    assert s[k..][1..] == s[k + 1..];
  }

  /**
   * The state of GetByRankRange's walk with removal after taking the
   * members of ranks t + 1 .. k of s: the set is sound, has lost exactly
   * those members, and update[] still fits the gap after rank t.
   */
  ghost predicate Removing<V>(nodes: seq<Node<V>>, order: seq<int>, level: int, length: int, tail: int,
                              dict: map<string, int>, update: seq<int>, rank: seq<int>,
                              s: seq<Entry<V>>, t: int, k: int, out: seq<Entry<V>>)
  {
    && Good(nodes, order, level, length, tail, dict)
    && 0 <= t <= k <= |s| && |order| == |s| - (k - t)
    && out == s[t..k] && EntriesOf(nodes, order) == s[..t] + s[k..]
    && UpdatesOk(Heights(nodes, order), order, update, rank, t, level)
  }

  /** One step of the walk with removal, with the bookkeeping of what was taken and what is left. */
  method RemoveNext<V>(n0: seq<Node<V>>, ghost o0: seq<int>, level0: int, length0: int, tail0: int,
                       dict0: map<string, int>, t: int, x: int, update: seq<int>, ghost rank: seq<int>,
                       ghost s: seq<Entry<V>>, ghost k: int, out0: seq<Entry<V>>)
    returns (next: int, out: seq<Entry<V>>, nodes: seq<Node<V>>, level: int, length: int, tail: int,
             dict: map<string, int>, ghost order: seq<int>)
    requires Removing(n0, o0, level0, length0, tail0, dict0, update, rank, s, t, k, out0)
    requires t < |o0| && x == o0[t]
    ensures Removing(nodes, order, level, length, tail, dict, update, rank, s, t, k + 1, out)
    ensures next == (if t < |order| then order[t] else Nil) && (next == Nil <==> t == |order|)
  {
    var e;
    next, e, nodes, level, length, tail, dict, order := RemoveStep(n0, o0, level0, length0, tail0, dict0, t, x, update, rank);
    DropNext(s, t, k, EntriesOf(n0, o0), EntriesOf(nodes, order));
    TakeNext(s, t, k, out0, e);
    out := out0 + [e];
  }

  /** The walk's last rank: end, clipped to the count, or t itself when end is not past t. */
  lemma StopBound(t: int, k: int, n: int, end: int, stop: int)
    requires stop == (if t < end then Min(end, n) else t) && t <= k && k + 1 <= n && k + 1 <= end
    ensures k + 1 <= stop
  {
  }

  /** Leaving the walk, by running out of members or by passing end, it has reached that last rank. */
  lemma StopAt(t: int, k: int, n: int, end: int, stop: int, atNil: bool)
    requires stop == (if t < end then Min(end, n) else t) && t <= k <= stop && k <= n
    requires atNil ==> k == n
    requires !atNil ==> k + 1 > end
    ensures k == stop
  {
  }

  /**
   * The walk of GetByRankRange with removal from rank k + 1 on (lines 387-400),
   * one member per call: while a member remains and traversed is not past
   * end, take it and delete it. It stops exactly at the last rank, stop.
   */
  method RemoveFrom<V>(n0: seq<Node<V>>, ghost o0: seq<int>, level0: int, length0: int, tail0: int,
                       dict0: map<string, int>, t: int, x: int, update: seq<int>, ghost rank: seq<int>,
                       ghost s: seq<Entry<V>>, ghost k: int, out0: seq<Entry<V>>, traversed: int, end: int,
                       ghost stop: int)
    returns (out: seq<Entry<V>>, nodes: seq<Node<V>>, level: int, length: int, tail: int,
             dict: map<string, int>, ghost order: seq<int>)
    requires Removing(n0, o0, level0, length0, tail0, dict0, update, rank, s, t, k, out0)
    requires traversed == k + 1 && x == (if t < |o0| then o0[t] else Nil) && (x == Nil <==> t == |o0|)
    requires stop == (if t < end then Min(end, |s|) else t) && k <= stop
    ensures Removing(nodes, order, level, length, tail, dict, update, rank, s, t, stop, out)
    decreases |s| - k
  {
    if x == Nil || traversed > end {
      StopAt(t, k, |s|, end, stop, x == Nil);
      out, nodes, level, length, tail, dict, order := out0, n0, level0, length0, tail0, dict0, o0;
      return;
    }
    var next, out1, n1, l1, len1, t1, d1;
    ghost var o1;
    next, out1, n1, l1, len1, t1, d1, o1 := RemoveNext(n0, o0, level0, length0, tail0, dict0, t, x, update, rank, s, k, out0);
    StopBound(t, k, |s|, end, stop);
    out, nodes, level, length, tail, dict, order := RemoveFrom(n1, o1, l1, len1, t1, d1, t, next, update, rank, s, k + 1, out1, traversed + 1, end, stop);
  }

  /**
   * The walk of GetByRankRange with removal (lines 387-400): from rank t,
   * with update[] recorded for the gap after it, take and delete the members
   * of ranks t + 1 .. end. The set keeps its invariant and loses exactly
   * those members.
   */
  method RemoveRanks<V>(n0: seq<Node<V>>, ghost o0: seq<int>, level0: int, length0: int, tail0: int,
                        dict0: map<string, int>, t: int, x0: int, update: seq<int>, ghost rank: seq<int>, end: int)
    returns (out: seq<Entry<V>>, nodes: seq<Node<V>>, level: int, length: int, tail: int,
             dict: map<string, int>, ghost order: seq<int>)
    requires Good(n0, o0, level0, length0, tail0, dict0) && 0 <= t <= |o0| && x0 == At(o0, t)
    requires UpdatesOk(Heights(n0, o0), o0, update, rank, t, level0)
    ensures Good(nodes, order, level, length, tail, dict)
    ensures var s := EntriesOf(n0, o0);
      var e := if t < end then Min(end, |s|) else t;
      out == s[t..e] && EntriesOf(nodes, order) == s[..t] + s[e..]
  {
    ghost var s := EntriesOf(n0, o0);
    BottomLevel(n0, o0, t);
    TakeNone(s, t);
    ghost var stop := if t < end then Min(end, |s|) else t;
    assert Removing(n0, o0, level0, length0, tail0, dict0, update, rank, s, t, t, []);
    out, nodes, level, length, tail, dict, order :=
      RemoveFrom(n0, o0, level0, length0, tail0, dict0, t, n0[x0].forward[0], update, rank, s, t, [], t + 1, end, stop);
  }

  /**
   * The in-place reversal of GetByRankRange's result (lines 402-406): swap
   * the outermost pair and move inwards until the indexes meet.
   */
  method ReverseInPlace<T>(s: seq<T>) returns (r: seq<T>)
    ensures r == Reverse(s)
  {
    r := s;
    var i, j := 0, |s| - 1;
    while i < j
      invariant 0 <= i <= j + 1 && j == |s| - 1 - i && |r| == |s|
      invariant forall k :: 0 <= k < i || j < k < |s| ==> r[k] == s[|s| - 1 - k]
      invariant forall k :: i <= k <= j ==> r[k] == s[k]
    {
      var a, b := r[i], r[j];
      r := r[i := b][j := a];
      i, j := i + 1, j - 1;
    }
    forall k | 0 <= k < |s| ensures r[k] == Reverse(s)[k] {
      ReverseAt(s, k);
    }
  }

  /**
   * The bounds as lines 350-366 leave them: each resolved as ResolveRank
   * does, then put in ascending order.
   */
  lemma SanitizedBounds(start: int, end: int, count: nat, a: int, b: int)
    requires a == (if start < 0 then count + start + 1 else start)
    requires b == (if end < 0 then count + end + 1 else end)
    ensures (if a <= 0 then 1 else a) == ResolveRank(start, count)
    ensures (if b <= 0 then 1 else b) == ResolveRank(end, count)
  {
  }

  /**
   * The window the walks take, from rank t = min(lo - 1, count) up to hi,
   * is RankSlice(s, lo, hi), and what removal leaves is the rest of s. Put
   * back into the caller's order it is RankRange.
   */
  lemma WindowIsRankRange<V>(s: seq<Entry<V>>, start: int, end: int, lo: int, hi: int, reverse: bool,
                             remove: bool, out: seq<Entry<V>>, rest: seq<Entry<V>>)
    requires var a, b := ResolveRank(start, |s|), ResolveRank(end, |s|);
      reverse == (a > b) && lo == (if reverse then b else a) && hi == (if reverse then a else b)
    requires var t := Min(lo - 1, |s|);
      var e := if t < hi then Min(hi, |s|) else t;
      out == s[t..e] && (remove ==> rest == s[..t] + s[e..])
    ensures (if reverse then Reverse(out) else out) == RankRange(s, start, end)
    ensures remove ==> rest == RankRangeRemaining(s, start, end)
  {
    if remove && lo > |s| {
      assert s[..|s|] + s[|s|..] == s;
    }
  }

  /**
   * The search and walk of GetByRankRange (lines 368-400) for ascending
   * bounds lo <= hi: the members of ranks lo .. hi, clipped to the count;
   * with `remove` they are also deleted.
   */
  method RankWindow<V>(n0: seq<Node<V>>, ghost o0: seq<int>, level0: int, length0: int, tail0: int,
                       dict0: map<string, int>, lo: int, hi: int, remove: bool)
    returns (out: seq<Entry<V>>, nodes: seq<Node<V>>, level: int, length: int, tail: int,
             dict: map<string, int>, ghost order: seq<int>)
    requires Good(n0, o0, level0, length0, tail0, dict0) && 1 <= lo
    ensures Good(nodes, order, level, length, tail, dict)
    ensures var s := EntriesOf(n0, o0);
      var t := Min(lo - 1, |s|);
      var e := if t < hi then Min(hi, |s|) else t;
      out == s[t..e] && EntriesOf(nodes, order) == (if remove then s[..t] + s[e..] else s)
    ensures !remove ==> nodes == n0 && order == o0 && level == level0 && length == length0 && tail == tail0 && dict == dict0
  {
    ghost var s := EntriesOf(n0, o0);
    var x, traversed, update;
    ghost var rank;
    x, traversed, update, rank := RankSearch(n0, o0, level0, lo, remove);
    if remove {
      out, nodes, level, length, tail, dict, order := RemoveRanks(n0, o0, level0, length0, tail0, dict0, traversed, x, update, rank, hi);
    } else {
      WalkOf(n0, o0);
      out := CollectRanks(n0, o0, s, traversed, x, hi);
      nodes, level, length, tail, dict, order := n0, level0, length0, tail0, dict0, o0;
    }
  }

  /**
   * GetByRankRange (lines 347-408) on the values of the set's fields: the
   * members of the resolved window, in the caller's order; with `remove`
   * the set keeps its invariant and loses exactly them, without it the
   * fields are untouched.
   */
  method RankRangeQuery<V>(n0: seq<Node<V>>, ghost o0: seq<int>, level0: int, length0: int, tail0: int,
                           dict0: map<string, int>, start: int, end: int, remove: bool)
    returns (r: seq<Entry<V>>, nodes: seq<Node<V>>, level: int, length: int, tail: int,
             dict: map<string, int>, ghost order: seq<int>)
    requires Good(n0, o0, level0, length0, tail0, dict0)
    ensures Good(nodes, order, level, length, tail, dict)
    ensures r == RankRange(EntriesOf(n0, o0), start, end)
    ensures remove ==> EntriesOf(nodes, order) == RankRangeRemaining(EntriesOf(n0, o0), start, end)
    ensures !remove ==> nodes == n0 && order == o0 && level == level0 && length == length0 && tail == tail0 && dict == dict0
  {
    ghost var s := EntriesOf(n0, o0);
    var lo, hi := start, end;
    if lo < 0 {
      lo := length0 + lo + 1;
    }
    if hi < 0 {
      hi := length0 + hi + 1;
    }
    SanitizedBounds(start, end, |s|, lo, hi);
    if lo <= 0 {
      lo := 1;
    }
    if hi <= 0 {
      hi := 1;
    }
    var reverse := lo > hi;
    if reverse {
      lo, hi := hi, lo;
    }
    var out;
    out, nodes, level, length, tail, dict, order := RankWindow(n0, o0, level0, length0, tail0, dict0, lo, hi, remove);
    WindowIsRankRange(s, start, end, lo, hi, reverse, remove, out, EntriesOf(nodes, order));
    if reverse {
      r := ReverseInPlace(out);
    } else {
      r := out;
    }
  }

  /**
   * The top level of the set reaches no member among the first m: a search
   * toward rank m stays at the header on its first level.
   */
  ghost predicate HeaderAtTop<V>(nodes: seq<Node<V>>, order: seq<int>, level: int, m: int)
    requires Shape(nodes, order) && 1 <= level
  {
    NextUp(Heights(nodes, order), level - 1, 0) > m
  }

  /**
   * FindRank's search before level i: it stands at rank `traversed` with
   * node x; once past the top level it has not returned, so it is short of
   * the member, and it stands at the header only if the top level skips
   * the first m members, which with the key comparison rules out the key "".
   */
  ghost predicate Descending<V>(nodes: seq<Node<V>>, order: seq<int>, level: int, m: int, key: string, byNode: bool,
                                i: int, traversed: int, x: int)
    requires Shape(nodes, order) && 1 <= level
  {
    && 0 <= i < level && 0 <= traversed <= m <= |order| && x == At(order, traversed)
    && Heights(nodes, order)[traversed] > i
    && (i < level - 1 ==> traversed < m)
    && (i < level - 1 && traversed == 0 ==> HeaderAtTop(nodes, order, level, m))
    && (i < level - 1 && !byNode && key == "" ==> !HeaderAtTop(nodes, order, level, m))
  }

  /**
   * One level of FindRank (lines 432-443): advance while the next node sorts
   * at or before the member, then compare. When the comparison holds the
   * rank reached is the member's, or 0 at the header for the key "".
   */
  method RankLevel<V>(nodes: seq<Node<V>>, ghost order: seq<int>, level: int, P: (int, string) -> bool,
                      ghost m: int, node: int, key: string, byNode: bool, i: int, traversed0: int, x0: int)
    returns (traversed: int, x: int, found: bool)
    requires Shape(nodes, order) && LevelsUpTo(nodes, order, level) && 1 <= level <= MaxLevel && nodes[0].key == ""
    requires Splits(nodes, order, P, m) && 1 <= m <= |order| && node == order[m - 1] && nodes[node].key == key
    requires forall j :: 0 <= j < |order| && nodes[order[j]].key == key ==> j == m - 1
    requires Descending(nodes, order, level, m, key, byNode, i, traversed0, x0)
    ensures found ==> traversed == if !byNode && key == "" && HeaderAtTop(nodes, order, level, m) then 0 else m
    ensures !found ==> 0 < i && Descending(nodes, order, level, m, key, byNode, i - 1, traversed, x)
  {
    hide Heights, LevelsUpTo, Splits;
    ghost var hs := Heights(nodes, order);
    traversed, x := Advance(nodes, order, level, P, m, i, traversed0, x0);
    if i == level - 1 && 0 < traversed {
      UpdateUnique(hs, i, m, traversed, 0);
    }
    if i == 0 {
      NextUpBottom(hs, traversed);
      assert x == node;
    }
    found := if byNode then x == node else nodes[x].key == key;
    if found && 0 < traversed && byNode {
      AtInjective(order, |nodes|, traversed, m);
    }
  }

  /**
   * The levels of FindRank (lines 431-444) for a member `node` at rank m,
   * found by the search predicate P that holds of exactly the first m
   * members: the first level whose stop passes the comparison returns.
   */
  method FindRankLevels<V>(nodes: seq<Node<V>>, ghost order: seq<int>, level: int, P: (int, string) -> bool,
                           ghost m: int, node: int, key: string, byNode: bool)
    returns (rank: int)
    requires Shape(nodes, order) && LevelsUpTo(nodes, order, level) && 1 <= level <= MaxLevel && nodes[0].key == ""
    requires Splits(nodes, order, P, m) && 1 <= m <= |order| && node == order[m - 1] && nodes[node].key == key
    requires forall j :: 0 <= j < |order| && nodes[order[j]].key == key ==> j == m - 1
    ensures rank == if !byNode && key == "" && HeaderAtTop(nodes, order, level, m) then 0 else m
  {
    var traversed := 0;
    var x := 0;
    var i := level - 1;
    while i >= 0
      invariant Descending(nodes, order, level, m, key, byNode, i, traversed, x)
    {
      var found;
      traversed, x, found := RankLevel(nodes, order, level, P, m, node, key, byNode, i, traversed, x);
      if found {
        rank := traversed;
        return;
      }
      i := i - 1;
    }
  }

  /**
   * FindRank (lines 426-446): search level by level for the member's own
   * (score, key) pair, adding up spans, and report the rank as soon as the
   * node reached is the member. As written (`byNode` false) "is the member"
   * is a comparison of keys, which the header, whose key is empty, also
   * passes for the member "" when the top level skips it; comparing the
   * node itself (`byNode`) gives the 1-based rank of every member and 0 for
   * a key that is not one.
   */
  method FindRankWalk<V>(nodes: seq<Node<V>>, ghost order: seq<int>, level: int, ghost length: int, ghost tail: int,
                         dict: map<string, int>, key: string, byNode: bool)
    returns (rank: int)
    requires Good(nodes, order, level, length, tail, dict)
    ensures var s := EntriesOf(nodes, order);
      rank == if !byNode && key == "" && key in Keys(s) && HeaderAtTop(nodes, order, level, RankOf(s, key)) then 0
              else RankOf(s, key)
  {
    ghost var s := EntriesOf(nodes, order);
    rank := 0;
    if key in dict {
      DictFinds(dict, nodes, order, key);
      DictUnique(dict, nodes, order);
      ghost var m := IndexOf(s, key) + 1;
      var node := dict[key];
      forall j | 0 <= j < |order| && nodes[order[j]].key == key ensures j == m - 1 {
        IndexOfUnique(s, j);
      }
      var P := AtOrBelowPair(nodes[node].score, key);
      PrefixLenAt(s, m - 1);
      AtOrBelowPairMonotone(nodes[node].score, key);
      SplitsAtPrefix(nodes, order, P);
      rank := FindRankLevels(nodes, order, level, P, m, node, key, byNode);
    }
  }
}

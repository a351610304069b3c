/**
 * The geometry of a skip list, independent of how nodes are stored.
 *
 * Positions 0 .. |hs|-1 number the nodes along level 0: position 0 is the
 * header and position q >= 1 holds the member of rank q. `hs[q]` is the
 * number of levels of the node at q. At level l the link leaving position q
 * reaches NextUp(hs, l, q), the next position whose node has more than l
 * levels, or |hs| when there is none. These lemmas say how that target moves
 * when a node is spliced in or cut out of level 0.
 */
module SkipShape {

  function NextUp(hs: seq<int>, l: int, q: int): (r: int)
    requires 0 <= q < |hs|
    ensures q < r <= |hs|
    ensures r < |hs| ==> hs[r] > l
    ensures forall j :: q < j < r ==> hs[j] <= l
    decreases |hs| - q
  {
    if q + 1 == |hs| then |hs|
    else if hs[q + 1] > l then q + 1
    else NextUp(hs, l, q + 1)
  }

  /** NextUp is determined by its contract. */
  lemma {:induction false} NextUpIs(hs: seq<int>, l: int, q: int, r: int)
    requires 0 <= q < r <= |hs|
    requires r < |hs| ==> hs[r] > l
    requires forall j :: q < j < r ==> hs[j] <= l
    ensures NextUp(hs, l, q) == r
    decreases |hs| - q
  {
    if q + 1 < r {
      NextUpIs(hs, l, q + 1, r);
    }
  }

  /** The heights after a node of height h is spliced in at position p + 1. */
  function Ins(hs: seq<int>, p: int, h: int): (r: seq<int>)
    requires 0 <= p < |hs|
    ensures |r| == |hs| + 1
    ensures forall j :: 0 <= j < |r| ==> r[j] == if j <= p then hs[j] else if j == p + 1 then h else hs[j - 1]
  {
    hs[..p + 1] + [h] + hs[p + 1..]
  }

  /** The heights after the node at position p + 1 is cut out. */
  function Del(hs: seq<int>, p: int): (r: seq<int>)
    requires 0 <= p && p + 1 < |hs|
    ensures |r| == |hs| - 1
    ensures forall j :: 0 <= j < |r| ==> r[j] == if j <= p then hs[j] else hs[j + 1]
  {
    hs[..p + 1] + hs[p + 2..]
  }

  /**
   * `u` is the level-l predecessor of the gap after position p: the last
   * position at or before p whose node reaches level l. Searches record one
   * such position per level (the `update` array of the source).
   */
  ghost predicate IsUpdate(hs: seq<int>, l: int, p: int, u: int)
  {
    0 <= u <= p < |hs| && hs[u] > l && NextUp(hs, l, u) > p
  }

  /** The level-l predecessor is unique and every other level-l link before it stays before it. */
  lemma UpdateUnique(hs: seq<int>, l: int, p: int, u: int, q: int)
    requires IsUpdate(hs, l, p, u)
    requires 0 <= q <= p && hs[q] > l && q != u
    ensures q < u && NextUp(hs, l, q) <= u
  {
  }

  /** From the predecessor, the next level-l link lies where the next one after p does. */
  lemma UpdateNext(hs: seq<int>, l: int, p: int, u: int)
    requires IsUpdate(hs, l, p, u)
    ensures NextUp(hs, l, p) == NextUp(hs, l, u)
  {
    if u < p {
      NextUpIs(hs, l, p, NextUp(hs, l, u));
    }
  }

  lemma NextUpInsBefore(hs: seq<int>, p: int, h: int, l: int, q: int)
    requires 0 <= q <= p < |hs|
    ensures NextUp(Ins(hs, p, h), l, q) ==
      var r := NextUp(hs, l, q);
      if r <= p then r else if h > l then p + 1 else r + 1
  {
    var hs' := Ins(hs, p, h);
    var r := NextUp(hs, l, q);
    if r <= p {
      NextUpIs(hs', l, q, r);
    } else if h > l {
      NextUpIs(hs', l, q, p + 1);
    } else {
      NextUpIs(hs', l, q, r + 1);
    }
  }

  lemma NextUpInsAfter(hs: seq<int>, p: int, h: int, l: int, q: int)
    requires 0 <= p <= q < |hs|
    ensures NextUp(Ins(hs, p, h), l, q + 1) == NextUp(hs, l, q) + 1
  {
    NextUpIs(Ins(hs, p, h), l, q + 1, NextUp(hs, l, q) + 1);
  }

  lemma NextUpDelBefore(hs: seq<int>, p: int, l: int, q: int)
    requires 0 <= q <= p && p + 1 < |hs|
    ensures NextUp(Del(hs, p), l, q) ==
      var r := NextUp(hs, l, q);
      if r <= p then r else if r == p + 1 then NextUp(hs, l, p + 1) - 1 else r - 1
  {
    var hs' := Del(hs, p);
    var r := NextUp(hs, l, q);
    if r <= p {
      NextUpIs(hs', l, q, r);
    } else if r == p + 1 {
      NextUpIs(hs', l, q, NextUp(hs, l, p + 1) - 1);
    } else {
      NextUpIs(hs', l, q, r - 1);
    }
  }

  lemma NextUpDelAfter(hs: seq<int>, p: int, l: int, q: int)
    requires 0 <= p && p + 1 < q < |hs|
    ensures NextUp(Del(hs, p), l, q - 1) == NextUp(hs, l, q) - 1
  {
    NextUpIs(Del(hs, p), l, q - 1, NextUp(hs, l, q) - 1);
  }

  /** At level 0, where every node has a link, each link reaches the very next position. */
  lemma NextUpBottom(hs: seq<int>, q: int)
    requires 0 <= q < |hs|
    requires forall j :: 0 <= j < |hs| ==> hs[j] >= 1
    ensures NextUp(hs, 0, q) == q + 1
  {
  }

  /** A level no node reaches beyond the header has only the header's empty link. */
  lemma NextUpAbove(hs: seq<int>, l: int, q: int)
    requires 0 <= q < |hs|
    requires forall j :: q < j < |hs| ==> hs[j] <= l
    ensures NextUp(hs, l, q) == |hs|
  {
    NextUpIs(hs, l, q, |hs|);
  }
}

/**
 * The skip-list algorithms of sortedset/sortedset.go (randomLevel, the
 * top-down search, insertNode, deleteNode and delete) as methods on the
 * values of the set's fields: the arena `nodes` (index 0 the header, Nil
 * the nil pointer), the level, length and tail, and the member index. The
 * ghost `order` lists the members along level 0; each method takes the
 * fields' values and returns their new values, and SortedSets.SortedSet
 * writes them back.
 */
module SkipOps {
  import opened Entries
  import opened SkipShape
  import opened SkipLinks
  import opened SkipSteps

  /**
   * randomLevel (lines 30-40): one more level for every successful coin
   * toss, capped at MaxLevel. The coin is an arbitrary choice here; the
   * loop stops at the cap, where further tosses could not change the result.
   */
  method RandomLevel() returns (h: int)
    ensures 1 <= h <= MaxLevel
  {
    h := 1;
    var heads: bool :| true;
    while heads && h < MaxLevel
      invariant 1 <= h <= MaxLevel
      decreases MaxLevel - h
    {
      h := h + 1;
      heads :| true;
    }
  }

  /**
   * The top-down search of a skip list `nodes` with members `order` and
   * `top` levels in use: on every level it advances while the next node
   * satisfies P and records where it stopped (update) and that node's rank
   * (rank). With P true of exactly the first p members, it stops at
   * position p: the last member satisfying P, or the header.
   */
  method Search<V>(nodes: seq<Node<V>>, ghost order: seq<int>, top: int, P: (int, string) -> bool, ghost p: int)
    returns (update: seq<int>, rank: seq<int>)
    requires Shape(nodes, order) && LevelsUpTo(nodes, order, top) && 1 <= top <= MaxLevel
    requires 0 <= p <= |order| && Splits(nodes, order, P, p)
    ensures UpdatesOk(Heights(nodes, order), order, update, rank, p, top)
    ensures rank[0] == p && update[0] == At(order, p)
  {
    hide Heights, LevelsUpTo, IsUpdate, Splits;
    ghost var hs := Heights(nodes, order);
    update := seq(MaxLevel, _ => Nil);
    rank := seq(MaxLevel, _ => 0);
    var x := 0;
    var i := top - 1;
    while i >= 0
      invariant -1 <= i < top
      invariant |update| == MaxLevel && |rank| == MaxLevel
      invariant var q := if i == top - 1 then 0 else rank[i + 1];
        0 <= q <= p && x == At(order, q) && hs[q] > i
      invariant forall l :: i < l < top ==>
        0 <= rank[l] <= p && update[l] == At(order, rank[l]) && IsUpdate(hs, l, p, rank[l])
    {
      var r := if top - 1 == i then 0 else rank[i + 1];
      r, x := Advance(nodes, order, top, P, p, i, r, x);
      update := update[i := x];
      rank := rank[i := r];
      i := i - 1;
    }
    UpdateBottom(hs, order, update, rank, p, top);
  }

  /** One level of Search: follow level-i links from position r while the next node satisfies P. */
  method Advance<V>(nodes: seq<Node<V>>, ghost order: seq<int>, top: int, P: (int, string) -> bool, ghost p: int,
                    i: int, r0: int, x0: int)
    returns (r: int, x: int)
    requires Shape(nodes, order) && LevelsUpTo(nodes, order, top) && Splits(nodes, order, P, p)
    requires 0 <= i < top && 0 <= r0 <= p <= |order| && x0 == At(order, r0) && Heights(nodes, order)[r0] > i
    ensures r0 <= r <= p && x == At(order, r) && Heights(nodes, order)[r] > i
    ensures IsUpdate(Heights(nodes, order), i, p, r)
  {
    hide Heights, LevelsUpTo, IsUpdate, Splits;
    ghost var hs := Heights(nodes, order);
    r, x := r0, x0;
    SearchStep(nodes, order, top, P, p, i, r, x);
    while nodes[x].forward[i] != Nil && P(nodes[nodes[x].forward[i]].score, nodes[nodes[x].forward[i]].key)
      invariant r0 <= r <= p && x == At(order, r) && hs[r] > i
      invariant i < |nodes[x].forward| && i < |nodes[x].span|
      invariant nodes[x].forward[i] != Nil ==>
        && r < r + nodes[x].span[i] <= |order|
        && nodes[x].forward[i] == order[r + nodes[x].span[i] - 1]
        && hs[r + nodes[x].span[i]] > i
        && (P(nodes[nodes[x].forward[i]].score, nodes[nodes[x].forward[i]].key) <==> r + nodes[x].span[i] <= p)
      invariant nodes[x].forward[i] == Nil || !P(nodes[nodes[x].forward[i]].score, nodes[nodes[x].forward[i]].key) ==>
        IsUpdate(hs, i, p, r)
      decreases |order| - r
    {
      r := r + nodes[x].span[i];
      x := nodes[x].forward[i];
      SearchStep(nodes, order, top, P, p, i, r, x);
    }
  }

  /**
   * The new-level loop of insertNode (lines 68-72): levels `level` to h-1
   * are opened at the header with a span of the whole length, and the
   * header is their update[] entry at rank 0.
   */
  method OpenLevels<V>(n0: seq<Node<V>>, ghost order: seq<int>, level: int, length: int, h: int,
                       update0: seq<int>, rank0: seq<int>, ghost p: int)
    returns (nodes: seq<Node<V>>, update: seq<int>, rank: seq<int>)
    requires Raised(n0, n0, order, level, level) && level < h <= MaxLevel && length == |order|
    requires UpdatesOk(Heights(n0, order), order, update0, rank0, p, level) && rank0[0] == p
    ensures Raised(n0, nodes, order, level, h)
    ensures UpdatesOk(Heights(n0, order), order, update, rank, p, h) && rank[0] == p
  {
    nodes, update, rank := n0, update0, rank0;
    var i := level;
    while i < h
      invariant level <= i <= h
      invariant Raised(n0, nodes, order, level, i)
      invariant UpdatesOk(Heights(n0, order), order, update, rank, p, i) && rank[0] == p
    {
      RaiseLoopStep(n0, nodes, order, level, i, update, rank, p);
      rank := rank[i := 0];
      update := update[i := 0];
      nodes := SetSpan(nodes, 0, i, length);
      i := i + 1;
    }
  }

  /**
   * The first linking loop of insertNode (lines 77-84): on each of its
   * levels the new node xa takes over update[i]'s link and update[i] links
   * to it.
   */
  method LinkNew<V>(n1: seq<Node<V>>, ghost order: seq<int>, ghost p: int, xa: int, top: int,
                    update: seq<int>, rank: seq<int>)
    returns (nodes: seq<Node<V>>)
    requires Shape(n1, order) && 0 <= p <= |order| && 1 <= xa < |n1| && xa !in order
    requires |n1[xa].forward| <= top <= MaxLevel
    requires LevelsUpTo(n1, order, top) && UpdatesOk(Heights(n1, order), order, update, rank, p, top) && rank[0] == p
    ensures Linking(n1, order, p, xa, nodes, |n1[xa].forward|)
  {
    nodes := n1;
    LinkStart(n1, order, p, xa);
    var i := 0;
    while i < |nodes[xa].forward|
      invariant 0 <= i <= |n1[xa].forward|
      invariant Linking(n1, order, p, xa, nodes, i)
    {
      LinkLoopStep(n1, order, p, xa, nodes, i, update, rank, top);
      nodes := LinkAt(nodes, xa, update[i], i, rank[0] - rank[i]);
      i := i + 1;
    }
  }

  /** The second linking loop of insertNode (lines 87-89): above the new node, update[i]'s link jumps one more position. */
  method BumpSpans<V>(ghost n1: seq<Node<V>>, ghost order: seq<int>, ghost p: int, xa: int, top: int,
                      update: seq<int>, rank: seq<int>, nodes0: seq<Node<V>>)
    returns (nodes: seq<Node<V>>)
    requires 0 <= xa < |n1| && Linking(n1, order, p, xa, nodes0, |n1[xa].forward|) && |n1[xa].forward| <= top <= MaxLevel
    requires LevelsUpTo(n1, order, top) && UpdatesOk(Heights(n1, order), order, update, rank, p, top)
    ensures Linking(n1, order, p, xa, nodes, top)
  {
    nodes := nodes0;
    var i := |nodes[xa].forward|;
    while i < top
      invariant |n1[xa].forward| <= i <= top
      invariant Linking(n1, order, p, xa, nodes, i)
    {
      BumpLoopStep(n1, order, p, xa, nodes, i, update, rank, top);
      nodes := SetSpan(nodes, update[i], i, nodes[update[i]].span[i] + 1);
      i := i + 1;
    }
  }

  /**
   * Lines 65-76 of insertNode: with the search done for position p, open
   * the levels a taller node needs and allocate the node of height h.
   */
  method Grow<V>(n0: seq<Node<V>>, ghost order: seq<int>, level: int, length: int, tail: int, h: int,
                 score: int, key: string, value: V, update0: seq<int>, rank0: seq<int>, ghost p: int)
    returns (n1: seq<Node<V>>, top: int, xa: int, update: seq<int>, rank: seq<int>)
    requires ListOk(n0, order, level, length, tail) && 1 <= h <= MaxLevel
    requires UpdatesOk(Heights(n0, order), order, update0, rank0, p, level) && rank0[0] == p
    ensures xa == |n0| && |n1| == xa + 1 && n1[xa] == Node(score, key, value, seq(h, _ => Nil), seq(h, _ => 0), Nil)
    ensures top == if h > level then h else level
    ensures Shape(n1, order) && HeaderOk(n1) && xa !in order
    ensures LevelsUpTo(n1, order, top) && HeightsBelow(n1, order, top) && NilFrom(n1, top)
    ensures BackwardOk(n1, order) && EntriesOf(n1, order) == EntriesOf(n0, order)
    ensures Heights(n1, order) == Heights(n0, order) && TopReached(n1, order, level)
    ensures KeepsEntries(n0, n1)
    ensures UpdatesOk(Heights(n1, order), order, update, rank, p, top) && rank[0] == p
  {
    n1, update, rank := n0, update0, rank0;
    top := level;
    if h > level {
      n1, update, rank := OpenLevels(n1, order, level, length, h, update, rank, p);
      top := h;
    }
    xa := |n1|;
    ghost var nr := n1;
    n1 := n1 + [Node(score, key, value, seq(h, _ => Nil), seq(h, _ => 0), Nil)];
    AppendNew(n0, nr, order, level, length, tail, top, n1[xa]);
  }

  /**
   * Lines 77-101 of insertNode: link the new node xa in after position p on
   * every level, fix the backward links and the tail.
   */
  method Splice<V>(n1: seq<Node<V>>, ghost order: seq<int>, top: int, tail: int, ghost p: int, xa: int,
                   update: seq<int>, rank: seq<int>)
    returns (nodes: seq<Node<V>>, tail': int)
    requires Shape(n1, order) && HeaderOk(n1) && 1 <= xa < |n1| && xa !in order
    requires 1 <= |n1[xa].forward| <= top <= MaxLevel && (top == |n1[xa].forward| || TopReached(n1, order, top))
    requires LevelsUpTo(n1, order, top) && HeightsBelow(n1, order, top) && NilFrom(n1, top) && BackwardOk(n1, order)
    requires UpdatesOk(Heights(n1, order), order, update, rank, p, top) && rank[0] == p
    requires Sorted(EntriesOf(n1, order)) && UniqueKeys(EntriesOf(n1, order)) && n1[xa].key !in Keys(EntriesOf(n1, order))
    requires p == PrefixLen(EntriesOf(n1, order), BelowPair(n1[xa].score, n1[xa].key))
    requires tail == (if |order| == 0 then Nil else order[|order| - 1])
    ensures ListOk(nodes, OrderIns(order, p, xa), top, |order| + 1, tail')
    ensures EntriesOf(nodes, OrderIns(order, p, xa)) ==
      InsertSorted(EntriesOf(n1, order), Entry(n1[xa].score, n1[xa].key, n1[xa].value))
    ensures KeepsEntries(n1, nodes) && |nodes| == |n1|
  {
    hide OrderIns, Heights, SetBackward, EntriesOf, InsertSorted;
    nodes := LinkNew(n1, order, p, xa, top, update, rank);
    nodes := BumpSpans(n1, order, p, xa, top, update, rank, nodes);
    ghost var nb := nodes;
    LinkedSuccessor(n1, order, p, xa, nodes, top);
    if update[0] == 0 {
      nodes := SetBackward(nodes, xa, Nil);
    } else {
      nodes := SetBackward(nodes, xa, update[0]);
    }
    tail' := tail;
    if nodes[xa].forward[0] != Nil {
      nodes := SetBackward(nodes, nodes[xa].forward[0], xa);
    } else {
      tail' := xa;
    }
    InsertFinish(n1, order, top, p, xa, nb, nodes, tail, tail');
  }

  /**
   * insertNode (lines 42-103): splice a new node of a random height in
   * after the last member that sorts before (score, key), raising the list
   * level first when the new node is taller. The member index is the
   * caller's business.
   */
  method InsertNode<V>(n0: seq<Node<V>>, ghost order: seq<int>, level: int, length: int, tail: int,
                       score: int, key: string, value: V)
    returns (nodes: seq<Node<V>>, top: int, tail': int, xa: int, ghost p: int)
    requires ListOk(n0, order, level, length, tail)
    requires UniqueKeys(EntriesOf(n0, order)) && key !in Keys(EntriesOf(n0, order))
    ensures p == PrefixLen(EntriesOf(n0, order), BelowPair(score, key))
    ensures xa == |n0| && |nodes| == xa + 1
    ensures ListOk(nodes, OrderIns(order, p, xa), top, length + 1, tail')
    ensures EntriesOf(nodes, OrderIns(order, p, xa)) == InsertSorted(EntriesOf(n0, order), Entry(score, key, value))
    ensures KeepsEntries(n0, nodes) && nodes[xa].key == key
  {
    BelowPairMonotone(score, key);
    p := PrefixLen(EntriesOf(n0, order), BelowPair(score, key));
    SplitsAtPrefix(n0, order, BelowPair(score, key));
    var update, rank := Search(n0, order, level, BelowPair(score, key), p);
    var h := RandomLevel();
    var n1;
    n1, top, xa, update, rank := Grow(n0, order, level, length, tail, h, score, key, value, update, rank, p);
    nodes, tail' := Splice(n1, order, top, tail, p, xa, update, rank);
    KeepsEntriesTrans(n0, n1, nodes);
  }

  /** The unlinking loop of deleteNode (lines 107-114), for the member x at position p. */
  method Unlink<V>(n0: seq<Node<V>>, ghost order: seq<int>, ghost p: int, x: int, top: int,
                   update: seq<int>, ghost rank: seq<int>)
    returns (nodes: seq<Node<V>>)
    requires Shape(n0, order) && 0 <= p < |order| && x == order[p] && 0 <= top <= MaxLevel
    requires LevelsUpTo(n0, order, top) && UpdatesOk(Heights(n0, order), order, update, rank, p, top)
    ensures Unlinking(n0, order, p, nodes, top)
  {
    nodes := n0;
    UnlinkStart(n0, order, p);
    var i := 0;
    while i < top
      invariant 0 <= i <= top
      invariant Unlinking(n0, order, p, nodes, i)
    {
      UnlinkLoopStep(n0, order, p, nodes, i, update, rank, top);
      nodes := UnlinkAt(nodes, update[i], x, i);
      i := i + 1;
    }
  }

  /** The level shrink of deleteNode (lines 120-122). */
  method Shrink<V>(nodes: seq<Node<V>>, ghost order: seq<int>, level: int, ghost length: int, ghost tail: int)
    returns (level': int)
    requires ListCore(nodes, order, level, length, tail)
    ensures ListOk(nodes, order, level', length, tail) && 1 <= level' <= level
  {
    level' := level;
    while level' > 1 && nodes[0].forward[level' - 1] == Nil
      invariant 1 <= level' <= level
      invariant ListCore(nodes, order, level', length, tail)
    {
      ShrinkStep(nodes, order, level', length, tail);
      level' := level' - 1;
    }
  }

  /**
   * deleteNode (lines 106-125): unlink the member x at position p, found by
   * a search whose update[] the caller passes, on every level; hand its
   * backward link to its successor (or make it the tail); drop the levels
   * the header no longer uses and the member's index entry.
   */
  method DeleteNode<V>(n0: seq<Node<V>>, ghost order: seq<int>, level: int, length: int, tail: int,
                     dict: map<string, int>, ghost p: int, x: int, update: seq<int>, ghost rank: seq<int>)
    returns (nodes: seq<Node<V>>, level': int, tail': int, dict': map<string, int>)
    requires ListOk(n0, order, level, length, tail) && DictOk(dict, n0, order) && 0 <= p < |order| && x == order[p]
    requires UpdatesOk(Heights(n0, order), order, update, rank, p, level)
    ensures ListOk(nodes, OrderDel(order, p), level', length - 1, tail') && 1 <= level' <= level
    ensures EntriesOf(nodes, OrderDel(order, p)) == RemoveAt(EntriesOf(n0, order), p)
    ensures DictOk(dict', nodes, OrderDel(order, p)) && dict' == dict - {n0[x].key}
    ensures KeepsEntries(n0, nodes) && forall a :: 0 <= a < |n0| ==> |nodes[a].forward| == |n0[a].forward|
  {
    hide OrderDel, RemoveAt, Heights, SetBackward, EntriesOf;
    nodes := Unlink(n0, order, p, x, level, update, rank);
    BottomLevel(n0, order, p + 1);
    assert At(order, p + 1) == x;
    ghost var nb := nodes;
    tail' := tail;
    if nodes[x].forward[0] != Nil {
      nodes := SetBackward(nodes, nodes[x].forward[0], nodes[x].backward);
    } else {
      tail' := nodes[x].backward;
    }
    DeleteFinish(n0, order, level, tail, p, nb, nodes, tail');
    level' := Shrink(nodes, OrderDel(order, p), level, length - 1, tail');
    DictDelete(dict, n0, order, p, nodes);
    dict' := dict - {n0[x].key};
  }

  /**
   * delete (lines 128-149): remove the member `key` if it is present with
   * exactly this score, and report whether it was.
   */
  method Delete<V>(n0: seq<Node<V>>, ghost o0: seq<int>, level: int, length: int, tail: int,
                   dict: map<string, int>, score: int, key: string)
    returns (found: bool, nodes: seq<Node<V>>, level': int, length': int, tail': int,
             dict': map<string, int>, ghost order: seq<int>)
    requires Good(n0, o0, level, length, tail, dict)
    ensures Good(nodes, order, level', length', tail', dict')
    ensures var s := EntriesOf(n0, o0);
      found <==> key in Keys(s) && s[IndexOf(s, key)].score == score
    ensures EntriesOf(nodes, order) == if found then RemoveKey(EntriesOf(n0, o0), key) else EntriesOf(n0, o0)
    ensures dict' == if found then dict - {key} else dict
  {
    BelowPairMonotone(score, key);
    ghost var p := PrefixLen(EntriesOf(n0, o0), BelowPair(score, key));
    SplitsAtPrefix(n0, o0, BelowPair(score, key));
    var update, rank := Search(n0, o0, level, BelowPair(score, key), p);
    DictUnique(dict, n0, o0);
    DeleteFinds(n0, o0, level, length, tail, score, key, p);
    var x := n0[update[0]].forward[0];
    if x != Nil && score == n0[x].score && n0[x].key == key {
      nodes, level', tail', dict' := DeleteNode(n0, o0, level, length, tail, dict, p, x, update, rank);
      length', order := length - 1, OrderDel(o0, p);
      found := true;
    } else {
      nodes, level', length', tail', dict', order := n0, level, length, tail, dict, o0;
      found := false;
    }
  }

  /** Lines 207-216 for a member the index does not hold: insertNode, then index the new node. */
  method AddNew<V>(n0: seq<Node<V>>, ghost o0: seq<int>, level: int, length: int, tail: int,
                   dict: map<string, int>, score: int, key: string, value: V)
    returns (nodes: seq<Node<V>>, level': int, length': int, tail': int,
             dict': map<string, int>, ghost order: seq<int>)
    requires Good(n0, o0, level, length, tail, dict) && key !in dict
    ensures Good(nodes, order, level', length', tail', dict')
    ensures EntriesOf(nodes, order) == InsertSorted(EntriesOf(n0, o0), Entry(score, key, value))
  {
    DictUnique(dict, n0, o0);
    var x;
    ghost var p;
    nodes, level', tail', x, p := InsertNode(n0, o0, level, length, tail, score, key, value);
    DictInsert(dict, n0, o0, p, x, nodes);
    dict' := dict[key := x];
    length', order := length + 1, OrderIns(o0, p, x);
  }

  /**
   * Remove (lines 223-230) on the fields: look the member up in the index
   * and, when it is there, delete it with its own score and hand back its entry.
   */
  method RemoveMember<V>(n0: seq<Node<V>>, ghost o0: seq<int>, level: int, length: int, tail: int,
                         dict: map<string, int>, key: string)
    returns (r: Option<Entry<V>>, nodes: seq<Node<V>>, level': int, length': int, tail': int,
             dict': map<string, int>, ghost order: seq<int>)
    requires Good(n0, o0, level, length, tail, dict)
    ensures Good(nodes, order, level', length', tail', dict')
    ensures var s := EntriesOf(n0, o0);
      r == if key in Keys(s) then Some(s[IndexOf(s, key)]) else None
    ensures EntriesOf(nodes, order) == RemoveKey(EntriesOf(n0, o0), key)
  {
    DictUnique(dict, n0, o0);
    if key in dict {
      var x := dict[key];
      DictFinds(dict, n0, o0, key);
      ghost var s := EntriesOf(n0, o0);
      assert s[IndexOf(s, key)] == Entry(n0[x].score, n0[x].key, n0[x].value);
      r := Some(Entry(n0[x].score, n0[x].key, n0[x].value));
      var ok;
      ok, nodes, level', length', tail', dict', order := Delete(n0, o0, level, length, tail, dict, n0[x].score, key);
      assert ok;
    } else {
      r := None;
      nodes, level', length', tail', dict', order := n0, level, length, tail, dict, o0;
    }
  }

  /**
   * AddOrUpdate (lines 198-218) on the fields: a member the index does not
   * hold is inserted; a present one takes the new payload in place when its
   * score is unchanged, and is otherwise deleted and inserted again.
   */
  method UpsertMember<V>(n0: seq<Node<V>>, ghost o0: seq<int>, level: int, length: int, tail: int,
                         dict: map<string, int>, key: string, score: int, value: V)
    returns (added: bool, nodes: seq<Node<V>>, level': int, length': int, tail': int,
             dict': map<string, int>, ghost order: seq<int>)
    requires Good(n0, o0, level, length, tail, dict)
    ensures Good(nodes, order, level', length', tail', dict')
    ensures added <==> key !in Keys(EntriesOf(n0, o0))
    ensures EntriesOf(nodes, order) == Upsert(EntriesOf(n0, o0), key, score, value)
  {
    DictUnique(dict, n0, o0);
    if key in dict {
      var x := dict[key];
      DictFinds(dict, n0, o0, key);
      ghost var s := EntriesOf(n0, o0);
      ghost var i := IndexOf(s, key);
      assert s[i] == Entry(n0[x].score, n0[x].key, n0[x].value);
      if n0[x].score == score {
        ValueWrite(n0, o0, level, length, tail, dict, i, value);
        nodes := n0[x := n0[x].(value := value)];
        level', length', tail', dict', order := level, length, tail, dict, o0;
      } else {
        var ok, n1, l1, len1, t1, d1, o1 := Delete(n0, o0, level, length, tail, dict, n0[x].score, key);
        assert ok;
        nodes, level', length', tail', dict', order := AddNew(n1, o1, l1, len1, t1, d1, score, key, value);
      }
      added := false;
    } else {
      nodes, level', length', tail', dict', order := AddNew(n0, o0, level, length, tail, dict, score, key, value);
      added := true;
    }
  }
}

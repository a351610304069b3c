/**
 * The whole skip-list invariant and the loop steps of insertNode and
 * deleteNode (sortedset/sortedset.go) stated on arena values, so that the
 * methods of SortedSets.SortedSet only have to call one lemma per iteration.
 */
module SkipSteps {
  import opened Entries
  import opened SkipShape
  import opened SkipLinks

  /** The header sentinel: score 0, member "", no backward link. */
  ghost predicate HeaderOk<V>(nodes: seq<Node<V>>)
    requires |nodes| >= 1
  {
    nodes[0].score == 0 && nodes[0].key == "" && nodes[0].backward == Nil
  }

  /** Levels 0 .. k-1 are consistent. */
  ghost predicate LevelsUpTo<V>(nodes: seq<Node<V>>, order: seq<int>, k: int)
    requires Shape(nodes, order)
  {
    forall l :: 0 <= l < k ==> LevelOk(nodes, order, l)
  }

  /** The header links nothing at levels k and above. */
  ghost predicate NilFrom<V>(nodes: seq<Node<V>>, k: int)
    requires Arena(nodes)
  {
    forall l :: 0 <= l && k <= l < MaxLevel ==> nodes[0].forward[l] == Nil
  }

  /** No member has more than k levels. */
  ghost predicate HeightsBelow<V>(nodes: seq<Node<V>>, order: seq<int>, k: int)
    requires Chain(order, |nodes|)
  {
    forall i :: 0 <= i < |order| ==> |nodes[order[i]].forward| <= k
  }

  /**
   * The update[] and rank[] arrays of a search for the place after position
   * p: on each level below k, update[l] is the last node at or before p that
   * reaches level l, and rank[l] is its position.
   */
  ghost predicate UpdatesOk(hs: seq<int>, order: seq<int>, update: seq<int>, rank: seq<int>, p: int, k: int)
  {
    && |update| == MaxLevel && |rank| == MaxLevel && 0 <= k <= MaxLevel
    && |hs| == |order| + 1 && 0 <= p <= |order|
    && forall l :: 0 <= l < k ==>
        0 <= rank[l] <= p && update[l] == At(order, rank[l]) && IsUpdate(hs, l, p, rank[l])
  }

  /**
   * The skip-list invariant: the arena's shape, the header, the levels in
   * use (each consistent, no member above the current level, the header's
   * top link set unless the level is 1), the length, the strict order of
   * level 0, the backward links and the tail.
   */
  ghost predicate ListOk<V>(nodes: seq<Node<V>>, order: seq<int>, level: int, length: int, tail: int)
  {
    ListCore(nodes, order, level, length, tail) && (level == 1 || nodes[0].forward[level - 1] != Nil)
  }

  /** ListOk without the condition that the top level is in use. */
  ghost predicate ListCore<V>(nodes: seq<Node<V>>, order: seq<int>, level: int, length: int, tail: int)
  {
    && Shape(nodes, order) && HeaderOk(nodes)
    && 1 <= level <= MaxLevel
    && HeightsBelow(nodes, order, level) && LevelsUpTo(nodes, order, level) && NilFrom(nodes, level)
    && length == |order|
    && Sorted(EntriesOf(nodes, order))
    && BackwardOk(nodes, order)
    && tail == (if |order| == 0 then Nil else order[|order| - 1])
  }

  lemma AgreeTrans<V>(n1: seq<Node<V>>, n2: seq<Node<V>>, n3: seq<Node<V>>, l: int)
    requires SameRecords(n1, n2) && SameRecords(n2, n3)
    requires AgreeAt(n1, n2, l) && AgreeAt(n2, n3, l)
    ensures AgreeAt(n1, n3, l)
  {
  }

  lemma BackwardFrame<V>(n1: seq<Node<V>>, n2: seq<Node<V>>, order: seq<int>)
    requires Chain(order, |n1|) && SameRecords(n1, n2) && BackwardOk(n1, order)
    ensures BackwardOk(n2, order)
  {
  }

  /** The header is position 0, and every node on level 0 reaches it. */
  lemma UpdateBottom(hs: seq<int>, order: seq<int>, update: seq<int>, rank: seq<int>, p: int, k: int)
    requires UpdatesOk(hs, order, update, rank, p, k) && 1 <= k
    requires forall j :: 0 <= j < |hs| ==> hs[j] >= 1
    ensures rank[0] == p && update[0] == At(order, p)
  {
    NextUpBottom(hs, rank[0]);
  }

  // ---------------------------------------------------------------------------
  // insertNode

  /** The raise loop of insertNode (lines 68-72) after levels below i are opened. */
  ghost predicate Raised<V>(n0: seq<Node<V>>, nodes: seq<Node<V>>, order: seq<int>, level: int, i: int)
  {
    && Shape(n0, order) && SameRecords(n0, nodes) && Shape(nodes, order)
    && 1 <= level <= i <= MaxLevel
    && (forall a :: 0 <= a < |nodes| ==> nodes[a].forward == n0[a].forward)
    && HeightsBelow(n0, order, level) && NilFrom(n0, level)
    && LevelsUpTo(nodes, order, i)
  }

  lemma RaiseLoopStep<V>(n0: seq<Node<V>>, nodes: seq<Node<V>>, order: seq<int>, level: int, i: int,
                         update: seq<int>, rank: seq<int>, p: int)
    requires Raised(n0, nodes, order, level, i) && i < MaxLevel
    requires UpdatesOk(Heights(n0, order), order, update, rank, p, i)
    ensures Raised(n0, SetSpan(nodes, 0, i, |order|), order, level, i + 1)
    ensures UpdatesOk(Heights(n0, order), order, update[i := 0], rank[i := 0], p, i + 1)
  {
    var n2 := SetSpan(nodes, 0, i, |order|);
    SameRecordsShape(n0, nodes, order);
    RaiseStep(nodes, order, i);
    SetSpanFrame(nodes, 0, i, |order|);
    SameRecordsTrans(n0, nodes, n2);
    LevelsFrame(nodes, n2, order, 0, i, i);
  }

  /** A Raised state at its top is a consistent list up to that level. */
  lemma RaiseDone<V>(n0: seq<Node<V>>, nodes: seq<Node<V>>, order: seq<int>, level: int, i: int)
    requires Raised(n0, nodes, order, level, i)
    ensures HeightsBelow(nodes, order, i) && NilFrom(nodes, i)
    ensures Heights(nodes, order) == Heights(n0, order) && EntriesOf(nodes, order) == EntriesOf(n0, order)
  {
    SameRecordsShape(n0, nodes, order);
  }

  /**
   * The linking loops of insertNode (lines 77-89) after levels below i are
   * rewritten: those levels are consistent for the new order, the others
   * are as they were in n1, the arena just after the new node was appended.
   */
  ghost predicate Linking<V>(n1: seq<Node<V>>, order: seq<int>, p: int, xa: int, nodes: seq<Node<V>>, i: int)
  {
    && Shape(n1, order) && 0 <= p <= |order| && 1 <= xa < |n1| && xa !in order
    && 0 <= i <= MaxLevel
    && SameRecords(n1, nodes)
    && Shape(nodes, OrderIns(order, p, xa))
    && LevelsUpTo(nodes, OrderIns(order, p, xa), i)
    && (forall l :: i <= l < MaxLevel ==> AgreeAt(n1, nodes, l))
  }

  lemma LinkStart<V>(n1: seq<Node<V>>, order: seq<int>, p: int, xa: int)
    requires Shape(n1, order) && 0 <= p <= |order| && 1 <= xa < |n1| && xa !in order
    ensures Linking(n1, order, p, xa, n1, 0)
  {
    ShapeIns(n1, order, p, xa);
  }

  /** One iteration of lines 77-84, for a rewrite described by its effect. */
  lemma LinkLoopStepWith<V>(n1: seq<Node<V>>, order: seq<int>, p: int, xa: int, nodes: seq<Node<V>>, i: int,
                        update: seq<int>, rank: seq<int>, top: int, n2: seq<Node<V>>)
    requires Linking(n1, order, p, xa, nodes, i) && i < |n1[xa].forward| && i < top
    requires LevelsUpTo(n1, order, top) && UpdatesOk(Heights(n1, order), order, update, rank, p, top)
    requires SameRecords(nodes, n2)
    requires forall c :: 0 <= c < |n2| && c != xa && c != update[i] ==> n2[c] == nodes[c]
    requires forall l :: l != i ==> AgreeAt(nodes, n2, l)
    requires n2[update[i]].forward[i] == xa && n2[update[i]].span[i] == p - rank[i] + 1
    requires n2[xa].forward[i] == nodes[update[i]].forward[i]
    requires n2[xa].span[i] == nodes[update[i]].span[i] - (p - rank[i])
    ensures Linking(n1, order, p, xa, n2, i + 1)
  {
    var o := OrderIns(order, p, xa);
    SameRecordsShape(n1, nodes, order);
    LevelFrame(n1, nodes, order, i);
    InsertLinkStep(nodes, order, n2, p, xa, i, rank[i]);
    LevelsFrame(nodes, n2, o, 0, i, i);
    SameRecordsTrans(n1, nodes, n2);
    forall l | i + 1 <= l < MaxLevel ensures AgreeAt(n1, n2, l) {
      AgreeTrans(n1, nodes, n2, l);
    }
  }

  /**
   * The writes of one iteration of lines 77-84: node xa takes over node u's
   * level-i link, less the d positions from u to the gap, and u links to xa.
   */
  function LinkAt<V>(nodes: seq<Node<V>>, xa: int, u: int, i: int, d: int): (r: seq<Node<V>>)
    requires 0 <= xa < |nodes| && 0 <= u < |nodes|
    requires 0 <= i < |nodes[xa].forward| == |nodes[xa].span| && i < |nodes[u].forward| == |nodes[u].span|
    ensures |r| == |nodes|
  {
    SetLink(SetLink(nodes, xa, i, nodes[u].forward[i], nodes[u].span[i] - d), u, i, xa, d + 1)
  }

  /** One iteration of lines 77-84: the new node takes over update[i]'s link, update[i] links to it. */
  lemma LinkLoopStep<V>(n1: seq<Node<V>>, order: seq<int>, p: int, xa: int, nodes: seq<Node<V>>, i: int,
                        update: seq<int>, rank: seq<int>, top: int)
    requires Linking(n1, order, p, xa, nodes, i) && i < |n1[xa].forward| && i < top
    requires LevelsUpTo(n1, order, top) && UpdatesOk(Heights(n1, order), order, update, rank, p, top)
    ensures 0 <= update[i] < |nodes| && update[i] != xa
    ensures i < |nodes[update[i]].forward| == |nodes[update[i]].span|
    ensures i < |nodes[xa].forward| == |nodes[xa].span|
    ensures Linking(n1, order, p, xa, LinkAt(nodes, xa, update[i], i, p - rank[i]), i + 1)
  {
    var u := update[i];
    SameRecordsShape(n1, nodes, order);
    assert u == At(order, rank[i]);
    hide OrderIns, Heights, LevelsUpTo, AgreeAt, LevelOkWith;
    LinkWrites(nodes, xa, u, i, p - rank[i]);
    LinkLoopStepWith(n1, order, p, xa, nodes, i, update, rank, top, LinkAt(nodes, xa, u, i, p - rank[i]));
  }

  /** The two link writes of one iteration of lines 77-84, on distinct nodes. */
  lemma LinkWrites<V>(nodes: seq<Node<V>>, xa: int, u: int, i: int, d: int)
    requires 0 <= xa < |nodes| && 0 <= u < |nodes| && xa != u
    requires 0 <= i < |nodes[xa].forward| == |nodes[xa].span| && i < |nodes[u].forward| == |nodes[u].span|
    ensures var n2 := LinkAt(nodes, xa, u, i, d);
      && SameRecords(nodes, n2)
      && (forall c :: 0 <= c < |n2| && c != xa && c != u ==> n2[c] == nodes[c])
      && (forall l :: l != i ==> AgreeAt(nodes, n2, l))
      && n2[u].forward[i] == xa && n2[u].span[i] == d + 1
      && n2[xa].forward[i] == nodes[u].forward[i] && n2[xa].span[i] == nodes[u].span[i] - d
  {
    var f, s := nodes[u].forward[i], nodes[u].span[i] - d;
    var m := SetLink(nodes, xa, i, f, s);
    var n2 := SetLink(m, u, i, xa, d + 1);
    SetLinkFrame(nodes, xa, i, f, s);
    SetLinkFrame(m, u, i, xa, d + 1);
    SameRecordsTrans(nodes, m, n2);
    forall l | l != i ensures AgreeAt(nodes, n2, l) {
      AgreeTrans(nodes, m, n2, l);
    }
  }

  /** One iteration of lines 87-89. */
  lemma BumpLoopStep<V>(n1: seq<Node<V>>, order: seq<int>, p: int, xa: int, nodes: seq<Node<V>>, i: int,
                        update: seq<int>, rank: seq<int>, top: int)
    requires Linking(n1, order, p, xa, nodes, i) && |n1[xa].forward| <= i < top
    requires LevelsUpTo(n1, order, top) && UpdatesOk(Heights(n1, order), order, update, rank, p, top)
    ensures 0 <= update[i] < |nodes| && i < |nodes[update[i]].span|
    ensures Linking(n1, order, p, xa, SetSpan(nodes, update[i], i, nodes[update[i]].span[i] + 1), i + 1)
  {
    var o := OrderIns(order, p, xa);
    SameRecordsShape(n1, nodes, order);
    var u := update[i];
    assert u == At(order, rank[i]);
    var n2 := SetSpan(nodes, u, i, nodes[u].span[i] + 1);
    LevelFrame(n1, nodes, order, i);
    SetSpanFrame(nodes, u, i, nodes[u].span[i] + 1);
    BumpStep(nodes, order, n2, p, xa, i, rank[i]);
    LevelsFrame(nodes, n2, o, 0, i, i);
    SameRecordsTrans(n1, nodes, n2);
    forall l | i + 1 <= l < MaxLevel ensures AgreeAt(n1, n2, l) {
      AgreeTrans(n1, nodes, n2, l);
    }
  }

  /** Some member reaches level k (or k is the lowest level). */
  ghost predicate TopReached<V>(nodes: seq<Node<V>>, order: seq<int>, k: int)
    requires Chain(order, |nodes|)
  {
    k == 1 || exists i :: 0 <= i < |order| && |nodes[order[i]].forward| >= k
  }

  lemma ListTopReached<V>(nodes: seq<Node<V>>, order: seq<int>, level: int, length: int, tail: int)
    requires ListOk(nodes, order, level, length, tail)
    ensures TopReached(nodes, order, level)
  {
    if level > 1 {
      TopLink(nodes, order, level - 1);
    }
  }

  /**
   * createNode for insertNode (line 76): the new node, with `h` nil links of
   * span 0, is appended to the arena after the levels are raised to `top`.
   */
  lemma AppendNew<V>(n0: seq<Node<V>>, nr: seq<Node<V>>, order: seq<int>, level: int, length: int, tail: int, top: int, nd: Node<V>)
    requires ListOk(n0, order, level, length, tail) && Raised(n0, nr, order, level, top)
    requires 1 <= |nd.forward| <= MaxLevel && |nd.span| == |nd.forward|
    ensures var n1 := nr + [nd];
      && Shape(n1, order) && HeaderOk(n1) && |nr| !in order
      && LevelsUpTo(n1, order, top) && HeightsBelow(n1, order, top) && NilFrom(n1, top)
      && BackwardOk(n1, order) && EntriesOf(n1, order) == EntriesOf(n0, order)
      && Heights(n1, order) == Heights(n0, order)
      && TopReached(n1, order, level)
  {
    var n1 := nr + [nd];
    RaiseDone(n0, nr, order, level, top);
    AppendFrame(nr, order, nd);
    BackwardFrame(n0, nr, order);
    ListTopReached(n0, order, level, length, tail);
    assert NilFrom(n1, top) by {
      forall l | 0 <= l && top <= l < MaxLevel ensures n1[0].forward[l] == Nil {
        assert n1[0].forward == n0[0].forward;
      }
    }
    if level > 1 {
      var i :| 0 <= i < |order| && |n0[order[i]].forward| >= level;
      assert |n1[order[i]].forward| >= level;
    }
  }

  /** After the level loops the new node's level-0 link is its successor, if any. */
  lemma LinkedSuccessor<V>(n1: seq<Node<V>>, order: seq<int>, p: int, xa: int, nb: seq<Node<V>>, top: int)
    requires Linking(n1, order, p, xa, nb, top) && 1 <= top
    ensures 1 <= |nb[xa].forward|
    ensures nb[xa].forward[0] == if p < |order| then order[p] else Nil
  {
    var o := OrderIns(order, p, xa);
    AtIns(order, p, xa, p + 1);
    BottomLevel(nb, o, p + 1);
    if p < |order| {
      assert o[p + 1] == order[p];
    }
  }

  /** Two arenas that differ in backward links only. */
  ghost predicate SameButBackward<V>(n1: seq<Node<V>>, n2: seq<Node<V>>)
  {
    && |n1| == |n2|
    && forall a :: 0 <= a < |n1| ==>
        && n2[a].score == n1[a].score && n2[a].key == n1[a].key && n2[a].value == n1[a].value
        && n2[a].forward == n1[a].forward && n2[a].span == n1[a].span
  }

  lemma SameButBackwardFrame<V>(n1: seq<Node<V>>, n2: seq<Node<V>>, order: seq<int>, k: int)
    requires Shape(n1, order) && SameButBackward(n1, n2)
    ensures Shape(n2, order) && Heights(n2, order) == Heights(n1, order)
    ensures EntriesOf(n2, order) == EntriesOf(n1, order)
    ensures LevelsUpTo(n1, order, k) ==> LevelsUpTo(n2, order, k)
  {
    var hs := Heights(n1, order);
    assert Heights(n2, order) == hs;
    if LevelsUpTo(n1, order, k) {
      forall l | 0 <= l < k ensures LevelOk(n2, order, l) {
        assert LevelOk(n1, order, l);
        forall q | 0 <= q <= |order| && 0 <= l < hs[q] && l < |n2[At(order, q)].forward| && l < |n2[At(order, q)].span|
          ensures LinkOk(n2, order, hs, l, q)
        {
          assert LinkOk(n1, order, hs, l, q);
        }
      }
    }
  }

  /** The backward writes at the end of insertNode (lines 91-98). */
  lemma InsertBackwardWrites<V>(nb: seq<Node<V>>, order: seq<int>, p: int, xa: int, nf: seq<Node<V>>)
    requires 0 <= p <= |order| && 1 <= xa < |nb| && xa !in order
    requires forall i :: 0 <= i < |order| ==> 1 <= order[i] < |nb|
    requires var b := if p == 0 then Nil else order[p - 1];
      nf == if p < |order| then SetBackward(SetBackward(nb, xa, b), order[p], xa) else SetBackward(nb, xa, b)
    ensures SameButBackward(nb, nf) && nf[0] == nb[0]
    ensures forall c :: 0 <= c < |nf| && c != xa && (p == |order| || c != order[p]) ==> nf[c].backward == nb[c].backward
    ensures nf[xa].backward == (if p == 0 then Nil else order[p - 1])
    ensures p < |order| ==> nf[order[p]].backward == xa
  {
    var b := if p == 0 then Nil else order[p - 1];
    var m := SetBackward(nb, xa, b);
    assert SameButBackward(nb, m);
    if p < |order| {
      assert SameButBackward(m, nf);
      assert SameButBackward(nb, nf) by {
        forall a | 0 <= a < |nb| ensures nf[a].forward == nb[a].forward && nf[a].span == nb[a].span {
          assert nf[a].forward == m[a].forward && m[a].forward == nb[a].forward;
        }
      }
      assert nf[0] == m[0];
    }
  }

  /** The levels part of the end of insertNode. */
  lemma InsertFinishLevels<V>(n1: seq<Node<V>>, order: seq<int>, top: int, p: int, xa: int,
                              nb: seq<Node<V>>, nf: seq<Node<V>>)
    requires Linking(n1, order, p, xa, nb, top) && SameButBackward(nb, nf) && nf[0] == nb[0]
    requires HeaderOk(n1) && HeightsBelow(n1, order, top) && NilFrom(n1, top)
    requires 1 <= |n1[xa].forward| <= top && (top == |n1[xa].forward| || TopReached(n1, order, top))
    ensures var o := OrderIns(order, p, xa);
      && Shape(nf, o) && HeaderOk(nf) && 1 <= top <= MaxLevel
      && HeightsBelow(nf, o, top) && LevelsUpTo(nf, o, top) && NilFrom(nf, top)
      && (top == 1 || nf[0].forward[top - 1] != Nil)
      && EntriesOf(nf, o) == EntriesOf(n1, o)
  {
    var o := OrderIns(order, p, xa);
    ShapeIns(n1, order, p, xa);
    SameRecordsShape(n1, nb, o);
    SameButBackwardFrame(nb, nf, o, top);
    assert top <= MaxLevel by {
      assert n1[xa] == n1[xa];
    }
    assert HeightsBelow(nf, o, top) by {
      forall i | 0 <= i < |o| ensures |nf[o[i]].forward| <= top {
        assert |nf[o[i]].forward| == |n1[o[i]].forward|;
        assert o[i] == xa || o[i] in order;
      }
    }
    assert NilFrom(nf, top) by {
      forall l | 0 <= l && top <= l < MaxLevel ensures nf[0].forward[l] == Nil {
        assert AgreeAt(n1, nb, l);
      }
    }
    if top > 1 {
      TopLink(nf, o, top - 1);
      if top == |n1[xa].forward| {
        assert o[p] == xa;
      } else {
        var i :| 0 <= i < |order| && |n1[order[i]].forward| >= top;
        assert order[i] in o;
        var j :| 0 <= j < |o| && o[j] == order[i];
        assert |nf[o[j]].forward| >= top;
      }
    }
  }

  /** The nodes of n1 keep their score, member and payload in n2, which may be longer. */
  ghost predicate KeepsEntries<V>(n1: seq<Node<V>>, n2: seq<Node<V>>)
  {
    && |n1| <= |n2|
    && forall a :: 0 <= a < |n1| ==> n2[a].score == n1[a].score && n2[a].key == n1[a].key && n2[a].value == n1[a].value
  }

  lemma KeepsEntriesTrans<V>(n1: seq<Node<V>>, n2: seq<Node<V>>, n3: seq<Node<V>>)
    requires KeepsEntries(n1, n2) && KeepsEntries(n2, n3)
    ensures KeepsEntries(n1, n3)
  {
  }

  /**
   * The end of insertNode (lines 91-101): with every level rewritten and the
   * backward links of the new node and of its successor set, the list is
   * consistent again, one longer, with the new entry where the order puts it.
   */
  lemma InsertFinish<V>(n1: seq<Node<V>>, order: seq<int>, top: int, p: int, xa: int,
                        nb: seq<Node<V>>, nf: seq<Node<V>>, tail: int, tail': int)
    requires Linking(n1, order, p, xa, nb, top)
    requires HeaderOk(n1) && HeightsBelow(n1, order, top) && NilFrom(n1, top) && BackwardOk(n1, order)
    requires 1 <= |n1[xa].forward| <= top && (top == |n1[xa].forward| || TopReached(n1, order, top))
    requires Sorted(EntriesOf(n1, order)) && UniqueKeys(EntriesOf(n1, order))
    requires n1[xa].key !in Keys(EntriesOf(n1, order))
    requires p == PrefixLen(EntriesOf(n1, order), BelowPair(n1[xa].score, n1[xa].key))
    requires var b := if p == 0 then Nil else order[p - 1];
      nf == if p < |order| then SetBackward(SetBackward(nb, xa, b), order[p], xa) else SetBackward(nb, xa, b)
    requires tail == (if |order| == 0 then Nil else order[|order| - 1])
    requires tail' == if p == |order| then xa else tail
    ensures ListOk(nf, OrderIns(order, p, xa), top, |order| + 1, tail')
    ensures EntriesOf(nf, OrderIns(order, p, xa)) ==
      InsertSorted(EntriesOf(n1, order), Entry(n1[xa].score, n1[xa].key, n1[xa].value))
    ensures KeepsEntries(n1, nf)
  {
    var o := OrderIns(order, p, xa);
    var e := Entry(n1[xa].score, n1[xa].key, n1[xa].value);
    InsertBackwardWrites(nb, order, p, xa, nf);
    assert KeepsEntries(n1, nf) by {
      forall a | 0 <= a < |n1| ensures nf[a].score == n1[a].score && nf[a].key == n1[a].key && nf[a].value == n1[a].value {
        assert nb[a].score == n1[a].score && nb[a].key == n1[a].key && nb[a].value == n1[a].value;
      }
    }
    InsertFinishLevels(n1, order, top, p, xa, nb, nf);
    ShapeIns(n1, order, p, xa);
    InsertSortedProps(EntriesOf(n1, order), e);
    BackwardFrame(n1, nb, order);
    BackwardIns(nb, order, nf, p, xa);
    assert o[|o| - 1] == if p == |order| then xa else order[|order| - 1];
  }


  // ---------------------------------------------------------------------------
  // deleteNode

  /**
   * The unlinking loop of deleteNode (lines 107-114) after levels below i are
   * rewritten: those levels are consistent without the node at position
   * p + 1, the others are as they were in n0, and that node is untouched.
   */
  ghost predicate Unlinking<V>(n0: seq<Node<V>>, order: seq<int>, p: int, nodes: seq<Node<V>>, i: int)
  {
    && Shape(n0, order) && 0 <= p < |order|
    && 0 <= i <= MaxLevel
    && SameRecords(n0, nodes)
    && nodes[order[p]] == n0[order[p]]
    && Shape(nodes, OrderDel(order, p))
    && LevelsUpTo(nodes, OrderDel(order, p), i)
    && (forall l :: i <= l < MaxLevel ==> AgreeAt(n0, nodes, l))
  }

  lemma UnlinkStart<V>(n0: seq<Node<V>>, order: seq<int>, p: int)
    requires Shape(n0, order) && 0 <= p < |order|
    ensures Unlinking(n0, order, p, n0, 0)
  {
    ShapeDel(n0, order, p);
  }

  /** What line 108 sees: update[i] links to the node exactly when the node reaches level i. */
  lemma UnlinkSees<V>(n0: seq<Node<V>>, order: seq<int>, p: int, nodes: seq<Node<V>>, i: int,
                      update: seq<int>, rank: seq<int>, top: int)
    requires Unlinking(n0, order, p, nodes, i) && i < top
    requires LevelsUpTo(n0, order, top) && UpdatesOk(Heights(n0, order), order, update, rank, p, top)
    ensures 0 <= update[i] < |nodes| && update[i] != order[p]
    ensures i < |nodes[update[i]].forward| == |nodes[update[i]].span|
    ensures |nodes[order[p]].forward| == |nodes[order[p]].span|
    ensures nodes[update[i]].forward[i] == order[p] <==> i < |nodes[order[p]].forward|
  {
    SameRecordsShape(n0, nodes, order);
    LevelFrame(n0, nodes, order, i);
    DeleteSees(nodes, order, i, p, rank[i]);
    assert update[i] == At(order, rank[i]);
    assert At(order, p + 1) == order[p];
    if update[i] == order[p] {
      AtInjective(order, |n0|, rank[i], p + 1);
    }
  }

  /** One iteration of lines 107-114, for a rewrite described by its effect. */
  lemma UnlinkLoopStepWith<V>(n0: seq<Node<V>>, order: seq<int>, p: int, nodes: seq<Node<V>>, i: int,
                              update: seq<int>, rank: seq<int>, top: int, n2: seq<Node<V>>)
    requires Unlinking(n0, order, p, nodes, i) && i < top
    requires LevelsUpTo(n0, order, top) && UpdatesOk(Heights(n0, order), order, update, rank, p, top)
    requires SameRecords(nodes, n2) && 0 <= update[i] < |nodes| && update[i] != order[p]
    requires forall c :: 0 <= c < |n2| && c != update[i] ==> n2[c] == nodes[c]
    requires forall l :: l != i ==> AgreeAt(nodes, n2, l)
    requires i < |nodes[update[i]].forward| && i < |n2[update[i]].forward|
    requires i < |nodes[update[i]].span| && i < |n2[update[i]].span|
    requires i < |nodes[order[p]].forward| ==>
      i < |nodes[order[p]].span| &&
      n2[update[i]].forward[i] == nodes[order[p]].forward[i] &&
      n2[update[i]].span[i] == nodes[update[i]].span[i] + nodes[order[p]].span[i] - 1
    requires |nodes[order[p]].forward| <= i ==>
      n2[update[i]].forward[i] == nodes[update[i]].forward[i] &&
      n2[update[i]].span[i] == nodes[update[i]].span[i] - 1
    ensures Unlinking(n0, order, p, n2, i + 1)
  {
    var o := OrderDel(order, p);
    SameRecordsShape(n0, nodes, order);
    LevelFrame(n0, nodes, order, i);
    assert update[i] == At(order, rank[i]);
    DeleteLinkStep(nodes, order, n2, p, i, rank[i]);
    LevelsFrame(nodes, n2, o, 0, i, i);
    SameRecordsTrans(n0, nodes, n2);
    forall l | i + 1 <= l < MaxLevel ensures AgreeAt(n0, n2, l) {
      AgreeTrans(n0, nodes, n2, l);
    }
  }

  /** One iteration of lines 107-114, when update[i] links to the node. */
  lemma UnlinkLinked<V>(n0: seq<Node<V>>, order: seq<int>, p: int, nodes: seq<Node<V>>, i: int,
                        update: seq<int>, rank: seq<int>, top: int)
    requires Unlinking(n0, order, p, nodes, i) && i < top
    requires LevelsUpTo(n0, order, top) && UpdatesOk(Heights(n0, order), order, update, rank, p, top)
    requires 0 <= update[i] < |nodes| && i < |nodes[update[i]].forward| == |nodes[update[i]].span|
    requires i < |nodes[order[p]].forward| == |nodes[order[p]].span|
    ensures Unlinking(n0, order, p,
      SetLink(nodes, update[i], i, nodes[order[p]].forward[i], nodes[update[i]].span[i] + nodes[order[p]].span[i] - 1), i + 1)
  {
    var u, xa := update[i], order[p];
    UnlinkSees(n0, order, p, nodes, i, update, rank, top);
    var f, s := nodes[xa].forward[i], nodes[u].span[i] + nodes[xa].span[i] - 1;
    SetLinkFrame(nodes, u, i, f, s);
    UnlinkLoopStepWith(n0, order, p, nodes, i, update, rank, top, SetLink(nodes, u, i, f, s));
  }

  /** One iteration of lines 107-114, when update[i] jumps over the node. */
  lemma UnlinkOver<V>(n0: seq<Node<V>>, order: seq<int>, p: int, nodes: seq<Node<V>>, i: int,
                      update: seq<int>, rank: seq<int>, top: int)
    requires Unlinking(n0, order, p, nodes, i) && i < top
    requires LevelsUpTo(n0, order, top) && UpdatesOk(Heights(n0, order), order, update, rank, p, top)
    requires 0 <= update[i] < |nodes| && i < |nodes[update[i]].forward| == |nodes[update[i]].span|
    requires nodes[update[i]].forward[i] != order[p]
    ensures Unlinking(n0, order, p, SetSpan(nodes, update[i], i, nodes[update[i]].span[i] - 1), i + 1)
  {
    var u := update[i];
    UnlinkSees(n0, order, p, nodes, i, update, rank, top);
    SetSpanFrame(nodes, u, i, nodes[u].span[i] - 1);
    UnlinkLoopStepWith(n0, order, p, nodes, i, update, rank, top, SetSpan(nodes, u, i, nodes[u].span[i] - 1));
  }

  /** Lines 108-113 for level i: unlink x from update[i]'s link, or shorten the link that jumps over it. */
  function UnlinkAt<V>(nodes: seq<Node<V>>, u: int, x: int, i: int): (r: seq<Node<V>>)
    requires 0 <= u < |nodes| && 0 <= x < |nodes|
    requires 0 <= i < |nodes[u].forward| == |nodes[u].span|
    requires nodes[u].forward[i] == x ==> i < |nodes[x].forward| == |nodes[x].span|
    ensures |r| == |nodes|
  {
    if nodes[u].forward[i] == x then
      SetLink(nodes, u, i, nodes[x].forward[i], nodes[u].span[i] + nodes[x].span[i] - 1)
    else
      SetSpan(nodes, u, i, nodes[u].span[i] - 1)
  }

  /** One iteration of lines 107-114. */
  lemma UnlinkLoopStep<V>(n0: seq<Node<V>>, order: seq<int>, p: int, nodes: seq<Node<V>>, i: int,
                          update: seq<int>, rank: seq<int>, top: int)
    requires Unlinking(n0, order, p, nodes, i) && i < top
    requires LevelsUpTo(n0, order, top) && UpdatesOk(Heights(n0, order), order, update, rank, p, top)
    ensures 0 <= update[i] < |nodes| && 0 <= order[p] < |nodes|
    ensures i < |nodes[update[i]].forward| == |nodes[update[i]].span|
    ensures nodes[update[i]].forward[i] == order[p] ==> i < |nodes[order[p]].forward| == |nodes[order[p]].span|
    ensures Unlinking(n0, order, p, UnlinkAt(nodes, update[i], order[p], i), i + 1)
  {
    var u, x := update[i], order[p];
    UnlinkSees(n0, order, p, nodes, i, update, rank, top);
    if nodes[u].forward[i] == x {
      UnlinkLinked(n0, order, p, nodes, i, update, rank, top);
      assert UnlinkAt(nodes, u, x, i) == SetLink(nodes, u, i, nodes[x].forward[i], nodes[u].span[i] + nodes[x].span[i] - 1);
    } else {
      UnlinkOver(n0, order, p, nodes, i, update, rank, top);
      assert UnlinkAt(nodes, u, x, i) == SetSpan(nodes, u, i, nodes[u].span[i] - 1);
    }
  }

  /** The backward write of deleteNode (line 116) changes nothing else. */
  lemma DeleteBackwardWrite<V>(nb: seq<Node<V>>, order: seq<int>, p: int, b: int, nf: seq<Node<V>>)
    requires 0 <= p < |order| && 1 <= |nb| && (forall i :: 0 <= i < |order| ==> 1 <= order[i] < |nb|)
    requires nf == if p + 1 < |order| then SetBackward(nb, order[p + 1], b) else nb
    ensures SameButBackward(nb, nf) && nf[0] == nb[0]
    ensures forall c :: 0 <= c < |nf| && (p + 1 == |order| || c != order[p + 1]) ==> nf[c].backward == nb[c].backward
    ensures p + 1 < |order| ==> nf[order[p + 1]].backward == b
  {
  }

  /** The levels part of the end of deleteNode. */
  lemma DeleteFinishLevels<V>(n0: seq<Node<V>>, order: seq<int>, level: int, p: int, nb: seq<Node<V>>, nf: seq<Node<V>>)
    requires Unlinking(n0, order, p, nb, level) && SameButBackward(nb, nf) && nf[0] == nb[0]
    requires HeaderOk(n0) && 1 <= level <= MaxLevel && HeightsBelow(n0, order, level) && NilFrom(n0, level)
    ensures var o := OrderDel(order, p);
      && Shape(nf, o) && HeaderOk(nf)
      && HeightsBelow(nf, o, level) && LevelsUpTo(nf, o, level) && NilFrom(nf, level)
      && EntriesOf(nf, o) == EntriesOf(n0, o)
      && KeepsEntries(n0, nf)
      && (forall a :: 0 <= a < |n0| ==> |nf[a].forward| == |n0[a].forward|)
  {
    var o := OrderDel(order, p);
    ShapeDel(n0, order, p);
    SameRecordsShape(n0, nb, o);
    SameButBackwardFrame(nb, nf, o, level);
    assert HeightsBelow(nf, o, level) by {
      forall i | 0 <= i < |o| ensures |nf[o[i]].forward| <= level {
        assert o[i] in order;
      }
    }
    assert NilFrom(nf, level) by {
      forall l | 0 <= l && level <= l < MaxLevel ensures nf[0].forward[l] == Nil {
        assert AgreeAt(n0, nb, l);
      }
    }
  }

  /**
   * The end of deleteNode before the level shrinks (lines 115-119): with every
   * level rewritten and the successor's backward link (or the tail) moved to
   * the node's predecessor, the list without the node is consistent.
   */
  lemma DeleteFinish<V>(n0: seq<Node<V>>, order: seq<int>, level: int, tail: int, p: int,
                        nb: seq<Node<V>>, nf: seq<Node<V>>, tail': int)
    requires ListOk(n0, order, level, |order|, tail) && Unlinking(n0, order, p, nb, level)
    requires 0 <= p < |order|
    requires nf == if p + 1 < |order| then SetBackward(nb, order[p + 1], n0[order[p]].backward) else nb
    requires tail' == if p + 1 < |order| then tail else n0[order[p]].backward
    ensures ListCore(nf, OrderDel(order, p), level, |order| - 1, tail')
    ensures EntriesOf(nf, OrderDel(order, p)) == RemoveAt(EntriesOf(n0, order), p)
    ensures KeepsEntries(n0, nf)
    ensures forall a :: 0 <= a < |n0| ==> |nf[a].forward| == |n0[a].forward|
  {
    DeleteBackwardWrite(nb, order, p, n0[order[p]].backward, nf);
    DeleteFinishLevels(n0, order, level, p, nb, nf);
    DeleteFinishOrder(n0, order, level, tail, p, nb, nf);
    DeleteTail(n0, order, level, tail, p, tail');
  }

  /** The entries and backward links at the end of deleteNode. */
  lemma DeleteFinishOrder<V>(n0: seq<Node<V>>, order: seq<int>, level: int, tail: int, p: int,
                             nb: seq<Node<V>>, nf: seq<Node<V>>)
    requires ListOk(n0, order, level, |order|, tail) && Unlinking(n0, order, p, nb, level)
    requires 0 <= p < |order|
    requires nf == if p + 1 < |order| then SetBackward(nb, order[p + 1], n0[order[p]].backward) else nb
    ensures Chain(OrderDel(order, p), |nf|)
    ensures EntriesOf(nf, OrderDel(order, p)) == RemoveAt(EntriesOf(n0, order), p)
    ensures Sorted(EntriesOf(nf, OrderDel(order, p)))
    ensures BackwardOk(nf, OrderDel(order, p))
  {
    hide OrderDel, SetBackward, RemoveAt;
    DeleteBackwardWrite(nb, order, p, n0[order[p]].backward, nf);
    DeleteFinishLevels(n0, order, level, p, nb, nf);
    ShapeDel(n0, order, p);
    RemoveAtSorted(EntriesOf(n0, order), p);
    BackwardFrame(n0, nb, order);
    BackwardDel(nb, order, nf, p);
  }

  /** The tail at the end of deleteNode: the last member left, or Nil. */
  lemma DeleteTail<V>(n0: seq<Node<V>>, order: seq<int>, level: int, tail: int, p: int, tail': int)
    requires ListOk(n0, order, level, |order|, tail) && 0 <= p < |order|
    requires tail' == if p + 1 < |order| then tail else n0[order[p]].backward
    ensures var o := OrderDel(order, p);
      tail' == if |o| == 0 then Nil else o[|o| - 1]
  {
    var o := OrderDel(order, p);
    OrderDelIndex(order, p);
    assert BackwardOk(n0, order);
    if p + 1 == |order| {
      assert n0[order[p]].backward == (if p == 0 then Nil else order[p - 1]);
      if p > 0 {
        assert o[|o| - 1] == order[p - 1];
      }
    } else {
      assert o[|o| - 1] == order[|order| - 1];
    }
  }

  /** Removing an entry keeps a sequence sorted. */
  lemma RemoveAtSorted<V>(s: seq<Entry<V>>, p: nat)
    requires p < |s| && Sorted(s)
    ensures Sorted(RemoveAt(s, p))
  {
    var r := RemoveAt(s, p);
    RemoveAtIndex(s, p);
    forall i, j | 0 <= i < j < |r| ensures Precedes(r[i], r[j]) {
      var i', j' := if i < p then i else i + 1, if j < p then j else j + 1;
      assert Precedes(s[i'], s[j']);
    }
  }

  /** One iteration of the level shrink (lines 120-122). */
  lemma ShrinkStep<V>(nodes: seq<Node<V>>, order: seq<int>, level: int, length: int, tail: int)
    requires ListCore(nodes, order, level, length, tail) && level > 1 && nodes[0].forward[level - 1] == Nil
    ensures ListCore(nodes, order, level - 1, length, tail)
  {
    TopLink(nodes, order, level - 1);
  }

  /** After deleteNode the same update[] still describes the place after position p. */
  lemma UpdatesAfterDelete<V>(n0: seq<Node<V>>, order: seq<int>, p: int, nf: seq<Node<V>>,
                              update: seq<int>, rank: seq<int>, top: int, k: int)
    requires Shape(n0, order) && 0 <= p < |order| && Shape(nf, OrderDel(order, p)) && KeepsEntries(n0, nf)
    requires forall a :: 0 <= a < |n0| ==> |nf[a].forward| == |n0[a].forward|
    requires UpdatesOk(Heights(n0, order), order, update, rank, p, top) && 0 <= k <= top
    ensures UpdatesOk(Heights(nf, OrderDel(order, p)), OrderDel(order, p), update, rank, p, k)
  {
    var o := OrderDel(order, p);
    var hs := Heights(n0, order);
    ShapeDel(n0, order, p);
    assert Heights(nf, o) == Heights(n0, o);
    forall l | 0 <= l < k ensures update[l] == At(o, rank[l]) && IsUpdate(Del(hs, p), l, p, rank[l]) {
      AtDel(order, p, rank[l]);
      UpdateAfterDelete(hs, l, p, rank[l]);
    }
  }

  // ---------------------------------------------------------------------------
  // Searches

  /**
   * One link of a top-down search at level i from position r towards
   * position t: a set link reaches position r + span, a node with a level i;
   * when the link is nil or overshoots t, r is the level-i predecessor of the
   * gap after t.
   */
  lemma WalkStep<V>(nodes: seq<Node<V>>, order: seq<int>, level: int, i: int, r: int, t: int)
    requires Shape(nodes, order) && LevelsUpTo(nodes, order, level)
    requires 0 <= i < level && 0 <= r <= t <= |order| && Heights(nodes, order)[r] > i
    ensures i < |nodes[At(order, r)].forward| && i < |nodes[At(order, r)].span|
    ensures var f := nodes[At(order, r)].forward[i];
      var r' := r + nodes[At(order, r)].span[i];
      && (f != Nil ==> r < r' <= |order| && f == order[r' - 1] && Heights(nodes, order)[r'] > i)
      && (f == Nil ==> r' == |order|)
      && (f == Nil || r' > t ==> IsUpdate(Heights(nodes, order), i, t, r))
  {
    assert LevelOk(nodes, order, i);
    assert LinkOk(nodes, order, Heights(nodes, order), i, r);
  }

  /**
   * What delete (lines 142-148) decides from the search for (score, key):
   * the node after position p matches exactly when the member is present
   * with that score, and then it sits at position p.
   */
  lemma DeleteFinds<V>(nodes: seq<Node<V>>, order: seq<int>, level: int, length: int, tail: int,
                       score: int, key: string, p: int)
    requires ListOk(nodes, order, level, length, tail) && UniqueKeys(EntriesOf(nodes, order))
    requires p == PrefixLen(EntriesOf(nodes, order), BelowPair(score, key))
    ensures 1 <= |nodes[At(order, p)].forward|
    ensures nodes[At(order, p)].forward[0] == if p < |order| then order[p] else Nil
    ensures var s := EntriesOf(nodes, order);
      (p < |order| && nodes[order[p]].score == score && nodes[order[p]].key == key) <==>
      (key in Keys(s) && s[IndexOf(s, key)].score == score)
    ensures var s := EntriesOf(nodes, order);
      key in Keys(s) && s[IndexOf(s, key)].score == score ==> IndexOf(s, key) == p
  {
    var s := EntriesOf(nodes, order);
    assert LevelOk(nodes, order, 0);
    BottomLevel(nodes, order, p);
    if p < |order| && nodes[order[p]].score == score && nodes[order[p]].key == key {
      assert s[p].key == key;
      IndexOfUnique(s, p);
    }
    if key in Keys(s) && s[IndexOf(s, key)].score == score {
      var j := IndexOf(s, key);
      PrefixLenAt(s, j);
    }
  }

  /** P holds of exactly the first p members. */
  ghost predicate Splits<V>(nodes: seq<Node<V>>, order: seq<int>, P: (int, string) -> bool, p: int)
    requires Chain(order, |nodes|)
  {
    forall j :: 0 <= j < |order| ==> (P(nodes[order[j]].score, nodes[order[j]].key) <==> j < p)
  }

  /** In a sorted list a monotone search predicate splits the members at PrefixLen. */
  lemma SplitsAtPrefix<V>(nodes: seq<Node<V>>, order: seq<int>, P: (int, string) -> bool)
    requires Chain(order, |nodes|) && Sorted(EntriesOf(nodes, order)) && Monotone(P)
    ensures Splits(nodes, order, P, PrefixLen(EntriesOf(nodes, order), P))
  {
    PrefixSplit(EntriesOf(nodes, order), P);
  }

  /**
   * WalkStep for a search that advances while the next node satisfies a
   * predicate P true of exactly the first p members: it advances exactly up
   * to position p.
   */
  lemma SearchStep<V>(nodes: seq<Node<V>>, order: seq<int>, level: int, P: (int, string) -> bool, p: int,
                      i: int, r: int, x: int)
    requires Shape(nodes, order) && LevelsUpTo(nodes, order, level) && Splits(nodes, order, P, p)
    requires 0 <= i < level && 0 <= r <= p <= |order| && x == At(order, r) && Heights(nodes, order)[r] > i
    ensures i < |nodes[x].forward| && i < |nodes[x].span|
    ensures nodes[x].forward[i] != Nil ==>
      && r < r + nodes[x].span[i] <= |order|
      && nodes[x].forward[i] == order[r + nodes[x].span[i] - 1]
      && Heights(nodes, order)[r + nodes[x].span[i]] > i
      && (P(nodes[nodes[x].forward[i]].score, nodes[nodes[x].forward[i]].key) <==> r + nodes[x].span[i] <= p)
    ensures nodes[x].forward[i] == Nil || !P(nodes[nodes[x].forward[i]].score, nodes[nodes[x].forward[i]].key) ==>
      IsUpdate(Heights(nodes, order), i, p, r)
  {
    WalkStep(nodes, order, level, i, r, p);
  }

  // ---------------------------------------------------------------------------
  // The member index

  /** Removing the member at position p from the list and the index keeps them in agreement. */
  lemma DictDelete<V>(dict: map<string, int>, n0: seq<Node<V>>, order: seq<int>, p: int, nf: seq<Node<V>>)
    requires Chain(order, |n0|) && DictOk(dict, n0, order) && 0 <= p < |order|
    requires Chain(OrderDel(order, p), |nf|) && KeepsEntries(n0, nf)
    ensures DictOk(dict - {n0[order[p]].key}, nf, OrderDel(order, p))
  {
    var o := OrderDel(order, p);
    var s := EntriesOf(n0, order);
    DictUnique(dict, n0, order);
    assert EntriesOf(nf, o) == RemoveAt(s, p) by {
      RemoveAtIndex(s, p);
      OrderDelIndex(order, p);
    }
    RemoveAtKeys(s, p);
    forall i | 0 <= i < |o| ensures (dict - {n0[order[p]].key})[nf[o[i]].key] == o[i] {
      var j := if i < p then i else i + 1;
      assert o[i] == order[j] && s[j].key != s[p].key;
    }
  }

  /** Indexing a new node spliced in after position p keeps the list and the index in agreement. */
  lemma DictInsert<V>(dict: map<string, int>, n0: seq<Node<V>>, order: seq<int>, p: int, xa: int, nf: seq<Node<V>>)
    requires Chain(order, |n0|) && DictOk(dict, n0, order) && 0 <= p <= |order| && xa == |n0|
    requires Chain(OrderIns(order, p, xa), |nf|) && KeepsEntries(n0, nf)
    requires xa < |nf| && nf[xa].key !in dict
    ensures DictOk(dict[nf[xa].key := xa], nf, OrderIns(order, p, xa))
  {
    var o := OrderIns(order, p, xa);
    var s := EntriesOf(n0, order);
    var e := Entry(nf[xa].score, nf[xa].key, nf[xa].value);
    OrderInsIndex(order, p, xa);
    assert EntriesOf(nf, o) == InsertAt(s, p, e);
    InsertAtKeys(s, p, e);
    DictInsertIndex(dict, n0, order, p, xa, nf);
  }

  lemma DictInsertIndex<V>(dict: map<string, int>, n0: seq<Node<V>>, order: seq<int>, p: int, xa: int, nf: seq<Node<V>>)
    requires Chain(order, |n0|) && DictOk(dict, n0, order) && 0 <= p <= |order| && xa == |n0|
    requires Chain(OrderIns(order, p, xa), |nf|) && KeepsEntries(n0, nf)
    requires xa < |nf| && nf[xa].key !in dict
    ensures var o := OrderIns(order, p, xa);
      forall i :: 0 <= i < |o| ==> dict[nf[xa].key := xa][nf[o[i]].key] == o[i]
  {
    var o := OrderIns(order, p, xa);
    var k := nf[xa].key;
    forall i | 0 <= i < |o| ensures dict[k := xa][nf[o[i]].key] == o[i] {
      if i != p {
        var j := if i < p then i else i - 1;
        assert o[i] == order[j];
        assert nf[o[i]].key == n0[order[j]].key;
        assert n0[order[j]].key in Keys(EntriesOf(n0, order)) by {
          assert EntriesOf(n0, order)[j].key == n0[order[j]].key;
        }
      }
    }
  }

  /** The whole invariant of a sorted set: the skip list and the member index agree. */
  ghost predicate Good<V>(nodes: seq<Node<V>>, order: seq<int>, level: int, length: int, tail: int, dict: map<string, int>)
  {
    ListOk(nodes, order, level, length, tail) && DictOk(dict, nodes, order)
  }

  /** The index entry of a present member points at its node, at the position IndexOf names. */
  lemma DictFinds<V>(dict: map<string, int>, nodes: seq<Node<V>>, order: seq<int>, key: string)
    requires Chain(order, |nodes|) && DictOk(dict, nodes, order) && key in dict
    ensures 0 <= IndexOf(EntriesOf(nodes, order), key) < |order|
    ensures dict[key] == order[IndexOf(EntriesOf(nodes, order), key)]
    ensures nodes[dict[key]].key == key
  {
    var s := EntriesOf(nodes, order);
    var i := IndexOf(s, key);
    assert s[i].key == key;
  }

  /** Replacing the payload of the member at position i keeps the list and the index consistent. */
  lemma ValueWrite<V>(nodes: seq<Node<V>>, order: seq<int>, level: int, length: int, tail: int,
                      dict: map<string, int>, i: int, value: V)
    requires ListOk(nodes, order, level, length, tail) && DictOk(dict, nodes, order) && 0 <= i < |order|
    ensures var n2 := nodes[order[i] := nodes[order[i]].(value := value)];
      && ListOk(n2, order, level, length, tail) && DictOk(dict, n2, order)
      && EntriesOf(n2, order) == EntriesOf(nodes, order)[i := EntriesOf(nodes, order)[i].(value := value)]
  {
    ValueWriteLevels(nodes, order, level, i, value);
    ValueWriteEntries(nodes, order, dict, i, value);
  }

  lemma ValueWriteLevels<V>(nodes: seq<Node<V>>, order: seq<int>, level: int, i: int, value: V)
    requires Shape(nodes, order) && LevelsUpTo(nodes, order, level) && 0 <= i < |order|
    ensures var n2 := nodes[order[i] := nodes[order[i]].(value := value)];
      && Shape(n2, order) && LevelsUpTo(n2, order, level)
  {
    var n2 := nodes[order[i] := nodes[order[i]].(value := value)];
    var hs := Heights(nodes, order);
    assert Shape(n2, order);
    assert Heights(n2, order) == hs;
    forall l | 0 <= l < level ensures LevelOk(n2, order, l) {
      assert LevelOk(nodes, order, l);
      forall q | 0 <= q <= |order| && 0 <= l < hs[q] && l < |n2[At(order, q)].forward| && l < |n2[At(order, q)].span|
        ensures LinkOk(n2, order, hs, l, q)
      {
        assert LinkOk(nodes, order, hs, l, q);
      }
    }
  }

  lemma ValueWriteEntries<V>(nodes: seq<Node<V>>, order: seq<int>, dict: map<string, int>, i: int, value: V)
    requires Chain(order, |nodes|) && DictOk(dict, nodes, order) && Sorted(EntriesOf(nodes, order)) && 0 <= i < |order|
    ensures var n2 := nodes[order[i] := nodes[order[i]].(value := value)];
      && DictOk(dict, n2, order) && Sorted(EntriesOf(n2, order))
      && EntriesOf(n2, order) == EntriesOf(nodes, order)[i := EntriesOf(nodes, order)[i].(value := value)]
  {
    var n2 := nodes[order[i] := nodes[order[i]].(value := value)];
    var s := EntriesOf(nodes, order);
    var s2 := EntriesOf(n2, order);
    assert s2 == s[i := s[i].(value := value)];
    SameOrder(s, s2);
  }
}

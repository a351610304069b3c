/**
 * The skip list's storage: an arena of node records addressed by index
 * (index 0 is the header, Nil stands for Go's nil pointer), and the
 * invariant that ties every forward link and span to the geometry of
 * SkipShape. The step lemmas here are the per-level pointer rewrites of
 * insertNode and deleteNode (sortedset/sortedset.go), proved on values.
 */
module SkipLinks {
  import opened Entries
  import opened SkipShape

  /** SKIPLIST_MAXLEVEL. */
  const MaxLevel := 32
  /** The nil node pointer. */
  const Nil := -1

  /** A SortedSetNode: one forward link and one span per level, one backward link. */
  datatype Node<V> = Node(score: int, key: string, value: V, forward: seq<int>, span: seq<int>, backward: int)

  ghost predicate Arena<V>(nodes: seq<Node<V>>)
  {
    && |nodes| >= 1
    && |nodes[0].forward| == MaxLevel
    && (forall a :: 0 <= a < |nodes| ==>
          1 <= |nodes[a].forward| <= MaxLevel && |nodes[a].span| == |nodes[a].forward|)
  }

  /** `order` lists distinct, non-header arena indices: the members along level 0. */
  ghost predicate Chain(order: seq<int>, size: int)
  {
    && 1 <= size
    && (forall i :: 0 <= i < |order| ==> 1 <= order[i] < size)
    && (forall i, j :: 0 <= i < j < |order| ==> order[i] != order[j])
  }

  ghost predicate Shape<V>(nodes: seq<Node<V>>, order: seq<int>)
  {
    Arena(nodes) && Chain(order, |nodes|)
  }

  /** Arena index of position q (0 is the header). */
  function At(order: seq<int>, q: int): int
    requires 0 <= q <= |order|
  {
    if q == 0 then 0 else order[q - 1]
  }

  lemma AtInjective(order: seq<int>, size: int, q1: int, q2: int)
    requires Chain(order, size) && 0 <= q1 <= |order| && 0 <= q2 <= |order|
    requires At(order, q1) == At(order, q2)
    ensures q1 == q2
  {
  }

  ghost function Heights<V>(nodes: seq<Node<V>>, order: seq<int>): (hs: seq<int>)
    requires Shape(nodes, order)
    ensures |hs| == |order| + 1
    ensures forall q :: 0 <= q < |hs| ==> hs[q] == |nodes[At(order, q)].forward|
  {
    seq(|order| + 1, q requires 0 <= q <= |order| => |nodes[At(order, q)].forward|)
  }

  /** The members along level 0, as entries. */
  ghost function EntriesOf<V>(nodes: seq<Node<V>>, order: seq<int>): (s: seq<Entry<V>>)
    requires Chain(order, |nodes|)
    ensures |s| == |order|
    ensures forall i :: 0 <= i < |order| ==>
      s[i] == Entry(nodes[order[i]].score, nodes[order[i]].key, nodes[order[i]].value)
  {
    seq(|order|, i requires 0 <= i < |order| =>
      Entry(nodes[order[i]].score, nodes[order[i]].key, nodes[order[i]].value))
  }

  /**
   * The level-l link of position q reaches the next position whose node has
   * a level l, and its span is the rank distance to it; a nil link's span is
   * the distance to the last rank (length - rank), as in Redis. `hs` are the
   * heights of the positions.
   */
  ghost predicate LinkOk<V>(nodes: seq<Node<V>>, order: seq<int>, hs: seq<int>, l: int, q: int)
    requires Chain(order, |nodes|) && |hs| == |order| + 1 && 0 <= q <= |order|
    requires 0 <= l < |nodes[At(order, q)].forward| && l < |nodes[At(order, q)].span|
  {
    var r := NextUp(hs, l, q);
    var a := At(order, q);
    && nodes[a].forward[l] == (if r <= |order| then At(order, r) else Nil)
    && nodes[a].span[l] == (if r <= |order| then r else |order|) - q
  }

  /** Every level-l link is as LinkOk says, for positions of heights `hs`. */
  ghost predicate LevelOkWith<V>(nodes: seq<Node<V>>, order: seq<int>, hs: seq<int>, l: int)
    requires Chain(order, |nodes|) && |hs| == |order| + 1
  {
    forall q :: 0 <= q <= |order| && 0 <= l < hs[q] && l < |nodes[At(order, q)].forward| && l < |nodes[At(order, q)].span|
      ==> LinkOk(nodes, order, hs, l, q)
  }

  ghost predicate LevelOk<V>(nodes: seq<Node<V>>, order: seq<int>, l: int)
    requires Shape(nodes, order)
  {
    LevelOkWith(nodes, order, Heights(nodes, order), l)
  }

  /** Backward links: each member points at its predecessor, the first at nil. */
  ghost predicate BackwardOk<V>(nodes: seq<Node<V>>, order: seq<int>)
    requires Chain(order, |nodes|)
  {
    forall i :: 0 <= i < |order| ==> nodes[order[i]].backward == (if i == 0 then Nil else order[i - 1])
  }

  /** The member index maps each member to its node and nothing else. */
  ghost predicate DictOk<V>(dict: map<string, int>, nodes: seq<Node<V>>, order: seq<int>)
    requires Chain(order, |nodes|)
  {
    && dict.Keys == Keys(EntriesOf(nodes, order))
    && (forall i :: 0 <= i < |order| ==> dict[nodes[order[i]].key] == order[i])
  }

  lemma DictUnique<V>(dict: map<string, int>, nodes: seq<Node<V>>, order: seq<int>)
    requires Chain(order, |nodes|) && DictOk(dict, nodes, order)
    ensures UniqueKeys(EntriesOf(nodes, order))
  {
  }

  // ---------------------------------------------------------------------------
  // Field writes

  /** Set the level-l forward link and span of node a. */
  function SetLink<V>(nodes: seq<Node<V>>, a: int, l: int, f: int, s: int): (r: seq<Node<V>>)
    requires 0 <= a < |nodes| && 0 <= l < |nodes[a].forward| && |nodes[a].span| == |nodes[a].forward|
    ensures |r| == |nodes|
    ensures forall b :: 0 <= b < |r| && b != a ==> r[b] == nodes[b]
    ensures r[a] == nodes[a].(forward := nodes[a].forward[l := f], span := nodes[a].span[l := s])
  {
    nodes[a := nodes[a].(forward := nodes[a].forward[l := f], span := nodes[a].span[l := s])]
  }

  /** Set the level-l span of node a; its link is kept. */
  function SetSpan<V>(nodes: seq<Node<V>>, a: int, l: int, s: int): (r: seq<Node<V>>)
    requires 0 <= a < |nodes| && 0 <= l < |nodes[a].span|
    ensures |r| == |nodes|
    ensures forall b :: 0 <= b < |r| && b != a ==> r[b] == nodes[b]
    ensures r[a] == nodes[a].(span := nodes[a].span[l := s])
  {
    nodes[a := nodes[a].(span := nodes[a].span[l := s])]
  }

  /** Same records except for links and spans, which keep their lengths. */
  ghost predicate SameRecords<V>(n1: seq<Node<V>>, n2: seq<Node<V>>)
  {
    && |n1| == |n2|
    && forall a :: 0 <= a < |n1| ==>
        && n2[a].score == n1[a].score && n2[a].key == n1[a].key && n2[a].value == n1[a].value
        && |n2[a].forward| == |n1[a].forward| && |n2[a].span| == |n1[a].span|
        && n2[a].backward == n1[a].backward
  }

  /** Same links and spans at level l. */
  ghost predicate AgreeAt<V>(n1: seq<Node<V>>, n2: seq<Node<V>>, l: int)
    requires |n1| == |n2|
  {
    forall a :: 0 <= a < |n1| && 0 <= l < |n1[a].forward| && l < |n2[a].forward| && l < |n1[a].span| && l < |n2[a].span| ==>
      n2[a].forward[l] == n1[a].forward[l] && n2[a].span[l] == n1[a].span[l]
  }

  lemma SetLinkFrame<V>(nodes: seq<Node<V>>, a: int, l: int, f: int, s: int)
    requires 0 <= a < |nodes| && 0 <= l < |nodes[a].forward| && |nodes[a].span| == |nodes[a].forward|
    ensures SameRecords(nodes, SetLink(nodes, a, l, f, s))
    ensures forall l' :: l' != l ==> AgreeAt(nodes, SetLink(nodes, a, l, f, s), l')
  {
  }

  lemma SetSpanFrame<V>(nodes: seq<Node<V>>, a: int, l: int, s: int)
    requires 0 <= a < |nodes| && 0 <= l < |nodes[a].span|
    ensures SameRecords(nodes, SetSpan(nodes, a, l, s))
    ensures forall l' :: l' != l ==> AgreeAt(nodes, SetSpan(nodes, a, l, s), l')
  {
  }

  lemma SameRecordsShape<V>(n1: seq<Node<V>>, n2: seq<Node<V>>, order: seq<int>)
    requires SameRecords(n1, n2) && Shape(n1, order)
    ensures Shape(n2, order)
    ensures Heights(n2, order) == Heights(n1, order)
    ensures EntriesOf(n2, order) == EntriesOf(n1, order)
  {
  }

  lemma SameRecordsTrans<V>(n1: seq<Node<V>>, n2: seq<Node<V>>, n3: seq<Node<V>>)
    requires SameRecords(n1, n2) && SameRecords(n2, n3)
    ensures SameRecords(n1, n3)
  {
  }

  /** A level whose links were not written keeps its invariant. */
  lemma LevelFrame<V>(n1: seq<Node<V>>, n2: seq<Node<V>>, order: seq<int>, l: int)
    requires Shape(n1, order) && SameRecords(n1, n2) && AgreeAt(n1, n2, l)
    requires LevelOk(n1, order, l)
    ensures Shape(n2, order) && LevelOk(n2, order, l)
  {
    SameRecordsShape(n1, n2, order);
    var hs := Heights(n1, order);
    forall q | 0 <= q <= |order| && 0 <= l < hs[q] && l < |n2[At(order, q)].forward| && l < |n2[At(order, q)].span|
      ensures LinkOk(n2, order, hs, l, q)
    {
      assert LinkOk(n1, order, hs, l, q);
    }
  }

  lemma LevelsFrame<V>(n1: seq<Node<V>>, n2: seq<Node<V>>, order: seq<int>, lo: int, hi: int, skip: int)
    requires Shape(n1, order) && SameRecords(n1, n2)
    requires forall l :: lo <= l < hi && l != skip ==> AgreeAt(n1, n2, l) && LevelOk(n1, order, l)
    ensures Shape(n2, order)
    ensures forall l :: lo <= l < hi && l != skip ==> LevelOk(n2, order, l)
  {
    SameRecordsShape(n1, n2, order);
    forall l | lo <= l < hi && l != skip ensures LevelOk(n2, order, l) {
      LevelFrame(n1, n2, order, l);
    }
  }

  // ---------------------------------------------------------------------------
  // Splicing a node into level 0

  /** The members after node xa is spliced in at position p + 1. */
  function OrderIns(order: seq<int>, p: int, xa: int): (r: seq<int>)
    requires 0 <= p <= |order|
    ensures |r| == |order| + 1
  {
    order[..p] + [xa] + order[p..]
  }

  lemma OrderInsIndex(order: seq<int>, p: int, xa: int)
    requires 0 <= p <= |order|
    ensures var o := OrderIns(order, p, xa);
      forall i :: 0 <= i < |o| ==> o[i] == if i < p then order[i] else if i == p then xa else order[i - 1]
  {
  }

  lemma AtIns(order: seq<int>, p: int, xa: int, q: int)
    requires 0 <= p <= |order| && 0 <= q <= |order| + 1
    ensures At(OrderIns(order, p, xa), q) ==
      if q <= p then At(order, q) else if q == p + 1 then xa else At(order, q - 1)
  {
  }

  lemma ShapeIns<V>(nodes: seq<Node<V>>, order: seq<int>, p: int, xa: int)
    requires Shape(nodes, order) && 0 <= p <= |order| && 1 <= xa < |nodes| && xa !in order
    ensures Shape(nodes, OrderIns(order, p, xa))
    ensures Heights(nodes, OrderIns(order, p, xa)) == Ins(Heights(nodes, order), p, |nodes[xa].forward|)
    ensures EntriesOf(nodes, OrderIns(order, p, xa)) ==
      InsertAt(EntriesOf(nodes, order), p, Entry(nodes[xa].score, nodes[xa].key, nodes[xa].value))
  {
    var o := OrderIns(order, p, xa);
    OrderInsIndex(order, p, xa);
    var hs, hs' := Heights(nodes, order), Heights(nodes, o);
    forall q | 0 <= q < |hs'| ensures hs'[q] == Ins(hs, p, |nodes[xa].forward|)[q] {
      AtIns(order, p, xa, q);
    }
  }

  lemma InsertCaseBefore<V>(nodes: seq<Node<V>>, order: seq<int>, hs: seq<int>, n2: seq<Node<V>>, p: int, xa: int, h: int, i: int, q: int)
    requires Chain(order, |nodes|) && |hs| == |order| + 1 && 0 <= q <= p <= |order|
    requires 0 <= i < |nodes[At(order, q)].forward| && i < |nodes[At(order, q)].span|
    requires NextUp(hs, i, q) <= p
    requires LinkOk(nodes, order, hs, i, q)
    requires Chain(OrderIns(order, p, xa), |n2|) && |n2| == |nodes| && n2[At(order, q)] == nodes[At(order, q)]
    ensures At(OrderIns(order, p, xa), q) == At(order, q)
    ensures LinkOk(n2, OrderIns(order, p, xa), Ins(hs, p, h), i, q)
  {
    var r := NextUp(hs, i, q);
    AtIns(order, p, xa, q);
    AtIns(order, p, xa, r);
    NextUpInsBefore(hs, p, h, i, q);
  }

  lemma InsertCaseAfter<V>(nodes: seq<Node<V>>, order: seq<int>, hs: seq<int>, n2: seq<Node<V>>, p: int, xa: int, h: int, i: int, q: int)
    requires Chain(order, |nodes|) && |hs| == |order| + 1 && 0 <= p < q <= |order|
    requires 0 <= i < |nodes[At(order, q)].forward| && i < |nodes[At(order, q)].span|
    requires LinkOk(nodes, order, hs, i, q)
    requires Chain(OrderIns(order, p, xa), |n2|) && |n2| == |nodes| && n2[At(order, q)] == nodes[At(order, q)]
    ensures At(OrderIns(order, p, xa), q + 1) == At(order, q)
    ensures LinkOk(n2, OrderIns(order, p, xa), Ins(hs, p, h), i, q + 1)
  {
    var r := NextUp(hs, i, q);
    AtIns(order, p, xa, q + 1);
    if r <= |order| { AtIns(order, p, xa, r + 1); }
    NextUpInsAfter(hs, p, h, i, q);
  }

  lemma InsertCaseUpdate<V>(nodes: seq<Node<V>>, order: seq<int>, hs: seq<int>, n2: seq<Node<V>>, p: int, xa: int, h: int, i: int, u: int)
    requires Chain(order, |nodes|) && |hs| == |order| + 1 && p <= |order|
    requires 0 <= i < h && IsUpdate(hs, i, p, u)
    requires Chain(OrderIns(order, p, xa), |n2|) && |n2| == |nodes|
    requires i < |n2[At(order, u)].forward| && i < |n2[At(order, u)].span|
    requires n2[At(order, u)].forward[i] == xa && n2[At(order, u)].span[i] == p - u + 1
    ensures At(OrderIns(order, p, xa), u) == At(order, u)
    ensures LinkOk(n2, OrderIns(order, p, xa), Ins(hs, p, h), i, u)
  {
    AtIns(order, p, xa, u);
    AtIns(order, p, xa, p + 1);
    NextUpInsBefore(hs, p, h, i, u);
  }

  lemma InsertCaseNew<V>(nodes: seq<Node<V>>, order: seq<int>, hs: seq<int>, n2: seq<Node<V>>, p: int, xa: int, h: int, i: int, u: int)
    requires Chain(order, |nodes|) && |hs| == |order| + 1 && p <= |order|
    requires 0 <= i && IsUpdate(hs, i, p, u)
    requires i < |nodes[At(order, u)].forward| && i < |nodes[At(order, u)].span|
    requires LinkOk(nodes, order, hs, i, u)
    requires Chain(OrderIns(order, p, xa), |n2|) && 0 <= xa < |n2|
    requires i < |n2[xa].forward| && i < |n2[xa].span|
    requires n2[xa].forward[i] == nodes[At(order, u)].forward[i]
    requires n2[xa].span[i] == nodes[At(order, u)].span[i] - (p - u)
    ensures At(OrderIns(order, p, xa), p + 1) == xa
    ensures LinkOk(n2, OrderIns(order, p, xa), Ins(hs, p, h), i, p + 1)
  {
    var r := NextUp(hs, i, u);
    AtIns(order, p, xa, p + 1);
    if r <= |order| { AtIns(order, p, xa, r + 1); }
    NextUpInsAfter(hs, p, h, i, p);
    UpdateNext(hs, i, p, u);
  }

  /** The four cases of the link rewrite at one level the new node reaches. */
  lemma InsertLevel<V>(nodes: seq<Node<V>>, order: seq<int>, hs: seq<int>, n2: seq<Node<V>>, p: int, xa: int, h: int, i: int, u: int)
    requires Chain(order, |nodes|) && |hs| == |order| + 1 && 0 <= p <= |order|
    requires 1 <= xa < |nodes| && xa !in order && 0 <= i < h
    requires LevelOkWith(nodes, order, hs, i) && IsUpdate(hs, i, p, u)
    requires i < |nodes[At(order, u)].forward| && i < |nodes[At(order, u)].span|
    requires Chain(OrderIns(order, p, xa), |n2|) && |n2| == |nodes|
    requires forall a :: 0 <= a < |n2| && a != At(order, u) && a != xa ==> n2[a] == nodes[a]
    requires i < |n2[At(order, u)].forward| && i < |n2[At(order, u)].span|
    requires n2[At(order, u)].forward[i] == xa && n2[At(order, u)].span[i] == p - u + 1
    requires i < |n2[xa].forward| && i < |n2[xa].span|
    requires n2[xa].forward[i] == nodes[At(order, u)].forward[i]
    requires n2[xa].span[i] == nodes[At(order, u)].span[i] - (p - u)
    ensures LevelOkWith(n2, OrderIns(order, p, xa), Ins(hs, p, h), i)
  {
    var o := OrderIns(order, p, xa);
    var hs2 := Ins(hs, p, h);
    forall q | 0 <= q <= |o| && 0 <= i < hs2[q] && i < |n2[At(o, q)].forward| && i < |n2[At(o, q)].span|
      ensures LinkOk(n2, o, hs2, i, q)
    {
      InsertLinkAt(nodes, order, hs, n2, p, xa, h, i, u, q);
    }
  }

  /** One position q of the list after the splice, in InsertLevel. */
  lemma InsertLinkAt<V>(nodes: seq<Node<V>>, order: seq<int>, hs: seq<int>, n2: seq<Node<V>>, p: int, xa: int, h: int, i: int, u: int, q: int)
    requires Chain(order, |nodes|) && |hs| == |order| + 1 && 0 <= p <= |order|
    requires 1 <= xa < |nodes| && xa !in order && 0 <= i < h
    requires LevelOkWith(nodes, order, hs, i) && IsUpdate(hs, i, p, u)
    requires i < |nodes[At(order, u)].forward| && i < |nodes[At(order, u)].span|
    requires Chain(OrderIns(order, p, xa), |n2|) && |n2| == |nodes|
    requires forall a :: 0 <= a < |n2| && a != At(order, u) && a != xa ==> n2[a] == nodes[a]
    requires i < |n2[At(order, u)].forward| && i < |n2[At(order, u)].span|
    requires n2[At(order, u)].forward[i] == xa && n2[At(order, u)].span[i] == p - u + 1
    requires i < |n2[xa].forward| && i < |n2[xa].span|
    requires n2[xa].forward[i] == nodes[At(order, u)].forward[i]
    requires n2[xa].span[i] == nodes[At(order, u)].span[i] - (p - u)
    requires 0 <= q <= |order| + 1 && 0 <= i < Ins(hs, p, h)[q]
    requires i < |n2[At(OrderIns(order, p, xa), q)].forward| && i < |n2[At(OrderIns(order, p, xa), q)].span|
    ensures LinkOk(n2, OrderIns(order, p, xa), Ins(hs, p, h), i, q)
  {
    if q <= p {
      if q != u {
        InsertLinkBefore(nodes, order, hs, n2, p, xa, h, i, u, q);
      } else {
        InsertCaseUpdate(nodes, order, hs, n2, p, xa, h, i, u);
      }
    } else if q == p + 1 {
      assert LinkOk(nodes, order, hs, i, u);
      InsertCaseNew(nodes, order, hs, n2, p, xa, h, i, u);
    } else {
      InsertLinkAfter(nodes, order, hs, n2, p, xa, h, i, u, q);
    }
  }

  lemma InsertLinkBefore<V>(nodes: seq<Node<V>>, order: seq<int>, hs: seq<int>, n2: seq<Node<V>>, p: int, xa: int, h: int, i: int, u: int, q: int)
    requires Chain(order, |nodes|) && |hs| == |order| + 1 && 0 <= p <= |order|
    requires 1 <= xa < |nodes| && xa !in order && 0 <= i < h
    requires LevelOkWith(nodes, order, hs, i) && IsUpdate(hs, i, p, u)
    requires i < |nodes[At(order, u)].forward| && i < |nodes[At(order, u)].span|
    requires Chain(OrderIns(order, p, xa), |n2|) && |n2| == |nodes|
    requires forall a :: 0 <= a < |n2| && a != At(order, u) && a != xa ==> n2[a] == nodes[a]
    requires i < |n2[At(order, u)].forward| && i < |n2[At(order, u)].span|
    requires n2[At(order, u)].forward[i] == xa && n2[At(order, u)].span[i] == p - u + 1
    requires i < |n2[xa].forward| && i < |n2[xa].span|
    requires n2[xa].forward[i] == nodes[At(order, u)].forward[i]
    requires n2[xa].span[i] == nodes[At(order, u)].span[i] - (p - u)
    requires 0 <= q <= |order| + 1 && 0 <= i < Ins(hs, p, h)[q]
    requires i < |n2[At(OrderIns(order, p, xa), q)].forward| && i < |n2[At(OrderIns(order, p, xa), q)].span|
    requires q <= p && q != u
    ensures LinkOk(n2, OrderIns(order, p, xa), Ins(hs, p, h), i, q)
  {
    var a := At(order, q);
    assert a != At(order, u) by {
      if a == At(order, u) { AtInjective(order, |nodes|, q, u); }
    }
    UpdateUnique(hs, i, p, u, q);
    AtIns(order, p, xa, q);
    assert a != xa && n2[a] == nodes[a];
    assert hs[q] == Ins(hs, p, h)[q];
    assert LinkOk(nodes, order, hs, i, q);
    InsertCaseBefore(nodes, order, hs, n2, p, xa, h, i, q);
  }

  lemma InsertLinkAfter<V>(nodes: seq<Node<V>>, order: seq<int>, hs: seq<int>, n2: seq<Node<V>>, p: int, xa: int, h: int, i: int, u: int, q: int)
    requires Chain(order, |nodes|) && |hs| == |order| + 1 && 0 <= p <= |order|
    requires 1 <= xa < |nodes| && xa !in order && 0 <= i < h
    requires LevelOkWith(nodes, order, hs, i) && IsUpdate(hs, i, p, u)
    requires i < |nodes[At(order, u)].forward| && i < |nodes[At(order, u)].span|
    requires Chain(OrderIns(order, p, xa), |n2|) && |n2| == |nodes|
    requires forall a :: 0 <= a < |n2| && a != At(order, u) && a != xa ==> n2[a] == nodes[a]
    requires i < |n2[At(order, u)].forward| && i < |n2[At(order, u)].span|
    requires n2[At(order, u)].forward[i] == xa && n2[At(order, u)].span[i] == p - u + 1
    requires i < |n2[xa].forward| && i < |n2[xa].span|
    requires n2[xa].forward[i] == nodes[At(order, u)].forward[i]
    requires n2[xa].span[i] == nodes[At(order, u)].span[i] - (p - u)
    requires 0 <= q <= |order| + 1 && 0 <= i < Ins(hs, p, h)[q]
    requires i < |n2[At(OrderIns(order, p, xa), q)].forward| && i < |n2[At(OrderIns(order, p, xa), q)].span|
    requires p + 1 < q
    ensures LinkOk(n2, OrderIns(order, p, xa), Ins(hs, p, h), i, q)
  {
    hide Ins, OrderIns;
    var r := q - 1;
    assert q == r + 1;
    var a := At(order, r);
    assert a != At(order, u) by {
      if a == At(order, u) { AtInjective(order, |nodes|, r, u); }
    }
    AtIns(order, p, xa, q);
    assert a != xa && n2[a] == nodes[a];
    assert hs[r] == Ins(hs, p, h)[q];
    assert LinkOk(nodes, order, hs, i, r);
    InsertCaseAfter(nodes, order, hs, n2, p, xa, h, i, r);
  }

  /**
   * Link rewrite at a level the new node reaches (insertNode, lines 77-84):
   * n2 differs from nodes only in the level-i links of the new node xa and
   * of its update[] predecessor at position u.
   */
  lemma InsertLinkStep<V>(nodes: seq<Node<V>>, order: seq<int>, n2: seq<Node<V>>, p: int, xa: int, i: int, u: int)
    requires Shape(nodes, order) && 0 <= p <= |order| && 1 <= xa < |nodes| && xa !in order
    requires 0 <= i < |nodes[xa].forward|
    requires LevelOk(nodes, order, i)
    requires IsUpdate(Heights(nodes, order), i, p, u)
    requires SameRecords(nodes, n2)
    requires forall c :: 0 <= c < |n2| && c != xa && c != At(order, u) ==> n2[c] == nodes[c]
    requires n2[At(order, u)].forward[i] == xa && n2[At(order, u)].span[i] == p - u + 1
    requires n2[xa].forward[i] == nodes[At(order, u)].forward[i]
    requires n2[xa].span[i] == nodes[At(order, u)].span[i] - (p - u)
    ensures Shape(n2, OrderIns(order, p, xa)) && LevelOk(n2, OrderIns(order, p, xa), i)
  {
    var o := OrderIns(order, p, xa);
    var hs := Heights(nodes, order);
    ShapeIns(nodes, order, p, xa);
    SameRecordsShape(nodes, n2, o);
    InsertLevel(nodes, order, hs, n2, p, xa, |nodes[xa].forward|, i, u);
  }

  /** Two link writes at one level on distinct nodes. */
  lemma TwoLinks<V>(nodes: seq<Node<V>>, a: int, b: int, l: int, fa: int, sa: int, fb: int, sb: int)
    requires 0 <= a < |nodes| && 0 <= b < |nodes| && a != b
    requires 0 <= l < |nodes[a].forward| == |nodes[a].span| && l < |nodes[b].forward| == |nodes[b].span|
    ensures var n2 := SetLink(SetLink(nodes, a, l, fa, sa), b, l, fb, sb);
      && SameRecords(nodes, n2)
      && (forall c :: 0 <= c < |n2| && c != a && c != b ==> n2[c] == nodes[c])
      && n2[a].forward[l] == fa && n2[a].span[l] == sa
      && n2[b].forward[l] == fb && n2[b].span[l] == sb
  {
    var n1 := SetLink(nodes, a, l, fa, sa);
    SetLinkFrame(nodes, a, l, fa, sa);
    SetLinkFrame(n1, b, l, fb, sb);
    SameRecordsTrans(nodes, n1, SetLink(n1, b, l, fb, sb));
  }

  /** A node appended to the arena is not yet on any level. */
  lemma AppendFrame<V>(nodes: seq<Node<V>>, order: seq<int>, nd: Node<V>)
    requires Shape(nodes, order) && 1 <= |nd.forward| <= MaxLevel && |nd.span| == |nd.forward|
    ensures Shape(nodes + [nd], order)
    ensures Heights(nodes + [nd], order) == Heights(nodes, order)
    ensures EntriesOf(nodes + [nd], order) == EntriesOf(nodes, order)
    ensures forall l :: LevelOk(nodes, order, l) ==> LevelOk(nodes + [nd], order, l)
    ensures BackwardOk(nodes, order) ==> BackwardOk(nodes + [nd], order)
  {
    var n2 := nodes + [nd];
    var hs := Heights(nodes, order);
    assert Heights(n2, order) == hs;
    forall l | LevelOk(nodes, order, l) ensures LevelOk(n2, order, l) {
      forall q | 0 <= q <= |order| && 0 <= l < hs[q] && l < |n2[At(order, q)].forward| && l < |n2[At(order, q)].span|
        ensures LinkOk(n2, order, hs, l, q)
      {
        assert LinkOk(nodes, order, hs, l, q);
      }
    }
  }

  /**
   * A new top level (insertNode, lines 68-72): when no member reaches level l
   * and the header's level-l link is nil, a header span equal to the length
   * makes the level consistent, and the header is every position's update[l].
   */
  lemma RaiseStep<V>(nodes: seq<Node<V>>, order: seq<int>, l: int)
    requires Shape(nodes, order) && 0 <= l < MaxLevel
    requires forall i :: 0 <= i < |order| ==> |nodes[order[i]].forward| <= l
    requires nodes[0].forward[l] == Nil
    ensures Shape(SetSpan(nodes, 0, l, |order|), order)
    ensures Heights(SetSpan(nodes, 0, l, |order|), order) == Heights(nodes, order)
    ensures LevelOk(SetSpan(nodes, 0, l, |order|), order, l)
    ensures forall p :: 0 <= p <= |order| ==> IsUpdate(Heights(nodes, order), l, p, 0)
  {
    var n2 := SetSpan(nodes, 0, l, |order|);
    SetSpanFrame(nodes, 0, l, |order|);
    SameRecordsShape(nodes, n2, order);
    var hs := Heights(nodes, order);
    assert forall j :: 0 < j < |hs| ==> hs[j] <= l by {
      forall j | 0 < j < |hs| ensures hs[j] <= l {
        assert At(order, j) == order[j - 1];
      }
    }
    NextUpAbove(hs, l, 0);
  }

  /** The three cases at a level the new node does not reach. */
  lemma BumpLevel<V>(nodes: seq<Node<V>>, order: seq<int>, hs: seq<int>, n2: seq<Node<V>>, p: int, xa: int, h: int, l: int, u: int)
    requires Chain(order, |nodes|) && |hs| == |order| + 1 && 0 <= p <= |order|
    requires 1 <= xa < |nodes| && xa !in order && 0 <= h <= l
    requires LevelOkWith(nodes, order, hs, l) && IsUpdate(hs, l, p, u)
    requires l < |nodes[At(order, u)].forward| && l < |nodes[At(order, u)].span|
    requires Chain(OrderIns(order, p, xa), |n2|) && |n2| == |nodes|
    requires forall a :: 0 <= a < |n2| && a != At(order, u) ==> n2[a] == nodes[a]
    requires l < |n2[At(order, u)].forward| && l < |n2[At(order, u)].span|
    requires n2[At(order, u)].forward[l] == nodes[At(order, u)].forward[l]
    requires n2[At(order, u)].span[l] == nodes[At(order, u)].span[l] + 1
    ensures LevelOkWith(n2, OrderIns(order, p, xa), Ins(hs, p, h), l)
  {
    var o := OrderIns(order, p, xa);
    var hs2 := Ins(hs, p, h);
    forall q | 0 <= q <= |o| && 0 <= l < hs2[q] && l < |n2[At(o, q)].forward| && l < |n2[At(o, q)].span|
      ensures LinkOk(n2, o, hs2, l, q)
    {
      BumpLink(nodes, order, hs, n2, p, xa, h, l, u, q);
    }
  }

  /** BumpLevel at one position of the new order. */
  lemma BumpLink<V>(nodes: seq<Node<V>>, order: seq<int>, hs: seq<int>, n2: seq<Node<V>>, p: int, xa: int, h: int, l: int, u: int, q: int)
    requires Chain(order, |nodes|) && |hs| == |order| + 1 && 0 <= p <= |order|
    requires 1 <= xa < |nodes| && xa !in order && 0 <= h <= l
    requires LevelOkWith(nodes, order, hs, l) && IsUpdate(hs, l, p, u)
    requires l < |nodes[At(order, u)].forward| && l < |nodes[At(order, u)].span|
    requires Chain(OrderIns(order, p, xa), |n2|) && |n2| == |nodes|
    requires forall a :: 0 <= a < |n2| && a != At(order, u) ==> n2[a] == nodes[a]
    requires l < |n2[At(order, u)].forward| && l < |n2[At(order, u)].span|
    requires n2[At(order, u)].forward[l] == nodes[At(order, u)].forward[l]
    requires n2[At(order, u)].span[l] == nodes[At(order, u)].span[l] + 1
    requires var o := OrderIns(order, p, xa);
      0 <= q <= |o| && l < Ins(hs, p, h)[q] && l < |n2[At(o, q)].forward| && l < |n2[At(o, q)].span|
    ensures LinkOk(n2, OrderIns(order, p, xa), Ins(hs, p, h), l, q)
  {
    if q <= p && q != u {
      BumpBefore(nodes, order, hs, n2, p, xa, h, l, u, q);
    } else if q == u {
      assert LinkOk(nodes, order, hs, l, u);
      BumpUpdate(nodes, order, hs, n2, p, xa, h, l, u);
    } else {
      assert u <= p;
      BumpAfter(nodes, order, hs, n2, p, xa, h, l, u, q);
    }
  }

  /** BumpLink before the new node, away from the predecessor. */
  lemma BumpBefore<V>(nodes: seq<Node<V>>, order: seq<int>, hs: seq<int>, n2: seq<Node<V>>, p: int, xa: int, h: int, l: int, u: int, q: int)
    requires Chain(order, |nodes|) && |hs| == |order| + 1 && 0 <= p <= |order|
    requires 1 <= xa < |nodes| && xa !in order && 0 <= h <= l
    requires LevelOkWith(nodes, order, hs, l) && IsUpdate(hs, l, p, u)
    requires l < |nodes[At(order, u)].forward| && l < |nodes[At(order, u)].span|
    requires Chain(OrderIns(order, p, xa), |n2|) && |n2| == |nodes|
    requires forall a :: 0 <= a < |n2| && a != At(order, u) ==> n2[a] == nodes[a]
    requires l < |n2[At(order, u)].forward| && l < |n2[At(order, u)].span|
    requires n2[At(order, u)].forward[l] == nodes[At(order, u)].forward[l]
    requires n2[At(order, u)].span[l] == nodes[At(order, u)].span[l] + 1
    requires var o := OrderIns(order, p, xa);
      0 <= q <= |o| && l < Ins(hs, p, h)[q] && l < |n2[At(o, q)].forward| && l < |n2[At(o, q)].span|
    requires q <= p && q != u
    ensures LinkOk(n2, OrderIns(order, p, xa), Ins(hs, p, h), l, q)
  {
    AtIns(order, p, xa, q);
    assert At(order, q) != At(order, u) by {
      if At(order, q) == At(order, u) { AtInjective(order, |nodes|, q, u); }
    }
    assert LinkOk(nodes, order, hs, l, q);
    BumpOther(nodes, order, hs, n2, p, xa, h, l, u, q);
  }

  /** BumpLink after the new node: the link moved one position on. */
  lemma BumpAfter<V>(nodes: seq<Node<V>>, order: seq<int>, hs: seq<int>, n2: seq<Node<V>>, p: int, xa: int, h: int, l: int, u: int, q: int)
    requires Chain(order, |nodes|) && |hs| == |order| + 1 && 0 <= p <= |order| && 0 <= h <= l
    requires LevelOkWith(nodes, order, hs, l) && 0 <= u <= p
    requires Chain(OrderIns(order, p, xa), |n2|) && |n2| == |nodes|
    requires forall a :: 0 <= a < |n2| && a != At(order, u) ==> n2[a] == nodes[a]
    requires p < q <= |order| + 1 && l < Ins(hs, p, h)[q]
    requires l < |n2[At(OrderIns(order, p, xa), q)].forward| && l < |n2[At(OrderIns(order, p, xa), q)].span|
    ensures LinkOk(n2, OrderIns(order, p, xa), Ins(hs, p, h), l, q)
  {
    hide Ins, OrderIns;
    AtIns(order, p, xa, q);
    var k := q - 1;
    assert p < k <= |order| && l < hs[k];
    assert At(OrderIns(order, p, xa), q) == At(order, k);
    assert At(order, k) != At(order, u) by {
      if At(order, k) == At(order, u) { AtInjective(order, |nodes|, k, u); }
    }
    assert n2[At(order, k)] == nodes[At(order, k)];
    assert LinkOk(nodes, order, hs, l, k);
    InsertCaseAfter(nodes, order, hs, n2, p, xa, h, l, k);
    assert k + 1 == q;
  }

  /** BumpLevel at a level-l link before the new node other than the predecessor's: it is not touched. */
  lemma BumpOther<V>(nodes: seq<Node<V>>, order: seq<int>, hs: seq<int>, n2: seq<Node<V>>, p: int, xa: int, h: int, l: int, u: int, q: int)
    requires Chain(order, |nodes|) && |hs| == |order| + 1 && 0 <= p <= |order|
    requires IsUpdate(hs, l, p, u) && 0 <= q <= p && q != u && 0 <= l < hs[q]
    requires l < |nodes[At(order, q)].forward| && l < |nodes[At(order, q)].span|
    requires LinkOk(nodes, order, hs, l, q)
    requires Chain(OrderIns(order, p, xa), |n2|) && |n2| == |nodes| && n2[At(order, q)] == nodes[At(order, q)]
    ensures At(OrderIns(order, p, xa), q) == At(order, q)
    ensures LinkOk(n2, OrderIns(order, p, xa), Ins(hs, p, h), l, q)
  {
    UpdateUnique(hs, l, p, u, q);
    InsertCaseBefore(nodes, order, hs, n2, p, xa, h, l, q);
  }

  /** BumpLevel at the predecessor's level-l link: it now jumps over one more member. */
  lemma BumpUpdate<V>(nodes: seq<Node<V>>, order: seq<int>, hs: seq<int>, n2: seq<Node<V>>, p: int, xa: int, h: int, l: int, u: int)
    requires Chain(order, |nodes|) && |hs| == |order| + 1 && 0 <= p <= |order|
    requires 0 <= h <= l && IsUpdate(hs, l, p, u)
    requires l < |nodes[At(order, u)].forward| && l < |nodes[At(order, u)].span|
    requires LinkOk(nodes, order, hs, l, u)
    requires Chain(OrderIns(order, p, xa), |n2|) && |n2| == |nodes|
    requires l < |n2[At(order, u)].forward| && l < |n2[At(order, u)].span|
    requires n2[At(order, u)].forward[l] == nodes[At(order, u)].forward[l]
    requires n2[At(order, u)].span[l] == nodes[At(order, u)].span[l] + 1
    ensures At(OrderIns(order, p, xa), u) == At(order, u)
    ensures LinkOk(n2, OrderIns(order, p, xa), Ins(hs, p, h), l, u)
  {
    AtIns(order, p, xa, u);
    var r := NextUp(hs, l, u);
    NextUpInsBefore(hs, p, h, l, u);
    if r <= |order| { AtIns(order, p, xa, r + 1); }
  }

  /**
   * A level the new node does not reach (insertNode, lines 87-89): the
   * update[] predecessor's span grows by one and nothing else changes.
   */
  lemma BumpStep<V>(nodes: seq<Node<V>>, order: seq<int>, n2: seq<Node<V>>, p: int, xa: int, l: int, u: int)
    requires Shape(nodes, order) && 0 <= p <= |order| && 1 <= xa < |nodes| && xa !in order
    requires |nodes[xa].forward| <= l
    requires LevelOk(nodes, order, l)
    requires IsUpdate(Heights(nodes, order), l, p, u)
    requires SameRecords(nodes, n2)
    requires forall c :: 0 <= c < |n2| && c != At(order, u) ==> n2[c] == nodes[c]
    requires n2[At(order, u)].forward[l] == nodes[At(order, u)].forward[l]
    requires n2[At(order, u)].span[l] == nodes[At(order, u)].span[l] + 1
    ensures Shape(n2, OrderIns(order, p, xa)) && LevelOk(n2, OrderIns(order, p, xa), l)
  {
    var o := OrderIns(order, p, xa);
    ShapeIns(nodes, order, p, xa);
    SameRecordsShape(nodes, n2, o);
    BumpLevel(nodes, order, Heights(nodes, order), n2, p, xa, |nodes[xa].forward|, l, u);
  }

  // ---------------------------------------------------------------------------
  // Cutting a node out of level 0

  /** The members after the one at position p + 1 is cut out. */
  function OrderDel(order: seq<int>, p: int): (r: seq<int>)
    requires 0 <= p < |order|
    ensures |r| == |order| - 1
  {
    order[..p] + order[p + 1..]
  }

  lemma OrderDelIndex(order: seq<int>, p: int)
    requires 0 <= p < |order|
    ensures var o := OrderDel(order, p);
      forall i :: 0 <= i < |o| ==> o[i] == if i < p then order[i] else order[i + 1]
  {
  }

  lemma AtDel(order: seq<int>, p: int, q: int)
    requires 0 <= p < |order| && 0 <= q < |order|
    ensures At(OrderDel(order, p), q) == if q <= p then At(order, q) else At(order, q + 1)
  {
  }

  lemma ShapeDel<V>(nodes: seq<Node<V>>, order: seq<int>, p: int)
    requires Shape(nodes, order) && 0 <= p < |order|
    ensures Shape(nodes, OrderDel(order, p))
    ensures Heights(nodes, OrderDel(order, p)) == Del(Heights(nodes, order), p)
    ensures EntriesOf(nodes, OrderDel(order, p)) == RemoveAt(EntriesOf(nodes, order), p)
    ensures order[p] !in OrderDel(order, p)
  {
    var o := OrderDel(order, p);
    OrderDelIndex(order, p);
    var hs, hs' := Heights(nodes, order), Heights(nodes, o);
    forall q | 0 <= q < |hs'| ensures hs'[q] == Del(hs, p)[q] {
      AtDel(order, p, q);
    }
    RemoveAtIndex(EntriesOf(nodes, order), p);
  }

  /**
   * The update[] predecessor of the node at position p + 1 links to it at
   * level l exactly when that node reaches level l (deleteNode, line 108).
   */
  lemma DeleteSees<V>(nodes: seq<Node<V>>, order: seq<int>, l: int, p: int, u: int)
    requires Shape(nodes, order) && 0 <= p < |order| && 0 <= l && LevelOk(nodes, order, l)
    requires IsUpdate(Heights(nodes, order), l, p, u)
    ensures l < |nodes[At(order, u)].forward|
    ensures nodes[At(order, u)].forward[l] == order[p] <==> l < |nodes[order[p]].forward|
  {
    var hs := Heights(nodes, order);
    assert LinkOk(nodes, order, hs, l, u);
    var r := NextUp(hs, l, u);
    assert At(order, p + 1) == order[p];
    if r <= |order| && At(order, r) == order[p] {
      AtInjective(order, |nodes|, r, p + 1);
    }
  }

  lemma DeleteCaseBefore<V>(nodes: seq<Node<V>>, order: seq<int>, hs: seq<int>, n2: seq<Node<V>>, p: int, l: int, q: int)
    requires Chain(order, |nodes|) && |hs| == |order| + 1 && 0 <= q <= p < |order|
    requires 0 <= l < |nodes[At(order, q)].forward| && l < |nodes[At(order, q)].span|
    requires NextUp(hs, l, q) <= p
    requires LinkOk(nodes, order, hs, l, q)
    requires Chain(OrderDel(order, p), |n2|) && |n2| == |nodes| && n2[At(order, q)] == nodes[At(order, q)]
    ensures At(OrderDel(order, p), q) == At(order, q)
    ensures LinkOk(n2, OrderDel(order, p), Del(hs, p), l, q)
  {
    var r := NextUp(hs, l, q);
    AtDel(order, p, q);
    AtDel(order, p, r);
    NextUpDelBefore(hs, p, l, q);
  }

  lemma DeleteCaseAfter<V>(nodes: seq<Node<V>>, order: seq<int>, hs: seq<int>, n2: seq<Node<V>>, p: int, l: int, q: int)
    requires Chain(order, |nodes|) && |hs| == |order| + 1 && 0 <= p && p + 1 < q <= |order|
    requires 0 <= l < |nodes[At(order, q)].forward| && l < |nodes[At(order, q)].span|
    requires LinkOk(nodes, order, hs, l, q)
    requires Chain(OrderDel(order, p), |n2|) && |n2| == |nodes| && n2[At(order, q)] == nodes[At(order, q)]
    ensures At(OrderDel(order, p), q - 1) == At(order, q)
    ensures LinkOk(n2, OrderDel(order, p), Del(hs, p), l, q - 1)
  {
    var r := NextUp(hs, l, q);
    AtDel(order, p, q - 1);
    if r <= |order| { AtDel(order, p, r - 1); }
    NextUpDelAfter(hs, p, l, q);
  }

  /** The predecessor takes over the cut node's link and span. */
  lemma DeleteCaseLinked<V>(nodes: seq<Node<V>>, order: seq<int>, hs: seq<int>, n2: seq<Node<V>>, p: int, l: int, u: int)
    requires Chain(order, |nodes|) && |hs| == |order| + 1 && 0 <= p < |order|
    requires IsUpdate(hs, l, p, u) && hs[p + 1] > l
    requires 0 <= l < |nodes[At(order, u)].forward| && l < |nodes[At(order, u)].span|
    requires l < |nodes[order[p]].forward| && l < |nodes[order[p]].span|
    requires LinkOk(nodes, order, hs, l, u) && LinkOk(nodes, order, hs, l, p + 1)
    requires Chain(OrderDel(order, p), |n2|) && |n2| == |nodes|
    requires l < |n2[At(order, u)].forward| && l < |n2[At(order, u)].span|
    requires n2[At(order, u)].forward[l] == nodes[order[p]].forward[l]
    requires n2[At(order, u)].span[l] == nodes[At(order, u)].span[l] + nodes[order[p]].span[l] - 1
    ensures At(OrderDel(order, p), u) == At(order, u)
    ensures LinkOk(n2, OrderDel(order, p), Del(hs, p), l, u)
  {
    var r := NextUp(hs, l, p + 1);
    assert NextUp(hs, l, u) == p + 1;
    AtDel(order, p, u);
    if r <= |order| { AtDel(order, p, r - 1); }
    NextUpDelBefore(hs, p, l, u);
  }

  /** The predecessor jumps over the cut node; its span shrinks by one. */
  lemma DeleteCaseOver<V>(nodes: seq<Node<V>>, order: seq<int>, hs: seq<int>, n2: seq<Node<V>>, p: int, l: int, u: int)
    requires Chain(order, |nodes|) && |hs| == |order| + 1 && 0 <= p < |order|
    requires IsUpdate(hs, l, p, u) && hs[p + 1] <= l
    requires 0 <= l < |nodes[At(order, u)].forward| && l < |nodes[At(order, u)].span|
    requires LinkOk(nodes, order, hs, l, u)
    requires Chain(OrderDel(order, p), |n2|) && |n2| == |nodes|
    requires l < |n2[At(order, u)].forward| && l < |n2[At(order, u)].span|
    requires n2[At(order, u)].forward[l] == nodes[At(order, u)].forward[l]
    requires n2[At(order, u)].span[l] == nodes[At(order, u)].span[l] - 1
    ensures At(OrderDel(order, p), u) == At(order, u)
    ensures LinkOk(n2, OrderDel(order, p), Del(hs, p), l, u)
  {
    var r := NextUp(hs, l, u);
    AtDel(order, p, u);
    if r <= |order| { AtDel(order, p, r - 1); }
    NextUpDelBefore(hs, p, l, u);
  }

  lemma DeleteCaseUpdate<V>(nodes: seq<Node<V>>, order: seq<int>, hs: seq<int>, n2: seq<Node<V>>, p: int, l: int, u: int)
    requires Chain(order, |nodes|) && |hs| == |order| + 1 && 0 <= p < |order| && 0 <= l
    requires LevelOkWith(nodes, order, hs, l) && IsUpdate(hs, l, p, u)
    requires l < |nodes[At(order, u)].forward| && l < |nodes[At(order, u)].span|
    requires hs[p + 1] == |nodes[order[p]].forward| == |nodes[order[p]].span|
    requires Chain(OrderDel(order, p), |n2|) && |n2| == |nodes|
    requires l < |n2[At(order, u)].forward| && l < |n2[At(order, u)].span|
    requires hs[p + 1] > l ==>
      n2[At(order, u)].forward[l] == nodes[order[p]].forward[l] &&
      n2[At(order, u)].span[l] == nodes[At(order, u)].span[l] + nodes[order[p]].span[l] - 1
    requires hs[p + 1] <= l ==>
      n2[At(order, u)].forward[l] == nodes[At(order, u)].forward[l] &&
      n2[At(order, u)].span[l] == nodes[At(order, u)].span[l] - 1
    ensures At(OrderDel(order, p), u) == At(order, u)
    ensures LinkOk(n2, OrderDel(order, p), Del(hs, p), l, u)
  {
    assert LinkOk(nodes, order, hs, l, u);
    if hs[p + 1] > l {
      assert At(order, p + 1) == order[p];
      assert LinkOk(nodes, order, hs, l, p + 1);
      DeleteCaseLinked(nodes, order, hs, n2, p, l, u);
    } else {
      DeleteCaseOver(nodes, order, hs, n2, p, l, u);
    }
  }

  /** The cases of deleteNode's rewrite at one level (lines 107-114). */
  lemma DeleteLevel<V>(nodes: seq<Node<V>>, order: seq<int>, hs: seq<int>, n2: seq<Node<V>>, p: int, l: int, u: int)
    requires Chain(order, |nodes|) && |hs| == |order| + 1 && 0 <= p < |order| && 0 <= l
    requires LevelOkWith(nodes, order, hs, l) && IsUpdate(hs, l, p, u)
    requires l < |nodes[At(order, u)].forward| && l < |nodes[At(order, u)].span|
    requires hs[p + 1] == |nodes[order[p]].forward| == |nodes[order[p]].span|
    requires Chain(OrderDel(order, p), |n2|) && |n2| == |nodes|
    requires forall a :: 0 <= a < |n2| && a != At(order, u) ==> n2[a] == nodes[a]
    requires l < |n2[At(order, u)].forward| && l < |n2[At(order, u)].span|
    requires hs[p + 1] > l ==>
      n2[At(order, u)].forward[l] == nodes[order[p]].forward[l] &&
      n2[At(order, u)].span[l] == nodes[At(order, u)].span[l] + nodes[order[p]].span[l] - 1
    requires hs[p + 1] <= l ==>
      n2[At(order, u)].forward[l] == nodes[At(order, u)].forward[l] &&
      n2[At(order, u)].span[l] == nodes[At(order, u)].span[l] - 1
    ensures LevelOkWith(n2, OrderDel(order, p), Del(hs, p), l)
  {
    hide Del, OrderDel;
    var o := OrderDel(order, p);
    var hs2 := Del(hs, p);
    var ua := At(order, u);
    assert LinkOk(nodes, order, hs, l, u);
    forall q | 0 <= q <= |o| && 0 <= l < hs2[q] && l < |n2[At(o, q)].forward| && l < |n2[At(o, q)].span|
      ensures LinkOk(n2, o, hs2, l, q)
    {
      if q <= p {
        AtDel(order, p, q);
        if q != u {
          assert hs2[q] == hs[q];
          UpdateUnique(hs, l, p, u, q);
          assert At(order, q) != ua by {
            if At(order, q) == ua { AtInjective(order, |nodes|, q, u); }
          }
          DeleteCaseBefore(nodes, order, hs, n2, p, l, q);
        } else {
          DeleteCaseUpdate(nodes, order, hs, n2, p, l, u);
        }
      } else {
        AtDel(order, p, q);
        assert At(order, q + 1) != ua by {
          if At(order, q + 1) == ua { AtInjective(order, |nodes|, q + 1, u); }
        }
        DeleteCaseAfter(nodes, order, hs, n2, p, l, q + 1);
      }
    }
  }

  /** deleteNode's rewrite at one level, on the arena. */
  lemma DeleteLinkStep<V>(nodes: seq<Node<V>>, order: seq<int>, n2: seq<Node<V>>, p: int, l: int, u: int)
    requires Shape(nodes, order) && 0 <= p < |order| && 0 <= l && LevelOk(nodes, order, l)
    requires IsUpdate(Heights(nodes, order), l, p, u)
    requires SameRecords(nodes, n2)
    requires forall c :: 0 <= c < |n2| && c != At(order, u) ==> n2[c] == nodes[c]
    requires l < |nodes[order[p]].forward| ==>
      n2[At(order, u)].forward[l] == nodes[order[p]].forward[l] &&
      n2[At(order, u)].span[l] == nodes[At(order, u)].span[l] + nodes[order[p]].span[l] - 1
    requires |nodes[order[p]].forward| <= l ==>
      n2[At(order, u)].forward[l] == nodes[At(order, u)].forward[l] &&
      n2[At(order, u)].span[l] == nodes[At(order, u)].span[l] - 1
    ensures Shape(n2, OrderDel(order, p)) && LevelOk(n2, OrderDel(order, p), l)
  {
    var o := OrderDel(order, p);
    var hs := Heights(nodes, order);
    assert At(order, p + 1) == order[p];
    ShapeDel(nodes, order, p);
    SameRecordsShape(nodes, n2, o);
    DeleteLevel(nodes, order, hs, n2, p, l, u);
  }

  /** After a deletion every update[] entry is still the predecessor at its level. */
  lemma UpdateAfterDelete(hs: seq<int>, l: int, p: int, u: int)
    requires IsUpdate(hs, l, p, u) && p + 1 < |hs|
    ensures IsUpdate(Del(hs, p), l, p, u)
  {
    NextUpDelBefore(hs, p, l, u);
  }

  // ---------------------------------------------------------------------------
  // Level 0, the top level, and backward links

  /** At level 0 every position links to the next one (all nodes have level 0). */
  lemma BottomLevel<V>(nodes: seq<Node<V>>, order: seq<int>, q: int)
    requires Shape(nodes, order) && LevelOk(nodes, order, 0) && 0 <= q <= |order|
    ensures nodes[At(order, q)].forward[0] == (if q < |order| then order[q] else Nil)
    ensures nodes[At(order, q)].span[0] == (if q < |order| then 1 else 0)
  {
    var hs := Heights(nodes, order);
    NextUpBottom(hs, q);
    assert LinkOk(nodes, order, hs, 0, q);
  }

  /** The header's level-l link is nil exactly when no member reaches level l. */
  lemma TopLink<V>(nodes: seq<Node<V>>, order: seq<int>, l: int)
    requires Shape(nodes, order) && 0 <= l < MaxLevel && LevelOk(nodes, order, l)
    ensures nodes[0].forward[l] == Nil <==> forall i :: 0 <= i < |order| ==> |nodes[order[i]].forward| <= l
  {
    var hs := Heights(nodes, order);
    assert LinkOk(nodes, order, hs, l, 0);
    var r := NextUp(hs, l, 0);
    if r <= |order| {
      assert At(order, r) == order[r - 1];
      assert |nodes[order[r - 1]].forward| > l;
    } else {
      forall i | 0 <= i < |order| ensures |nodes[order[i]].forward| <= l {
        assert At(order, i + 1) == order[i];
      }
    }
  }

  /** Set the backward link of node a. */
  function SetBackward<V>(nodes: seq<Node<V>>, a: int, b: int): (r: seq<Node<V>>)
    requires 0 <= a < |nodes|
    ensures |r| == |nodes|
    ensures forall c :: 0 <= c < |r| && c != a ==> r[c] == nodes[c]
    ensures r[a] == nodes[a].(backward := b)
  {
    nodes[a := nodes[a].(backward := b)]
  }

  /** A backward write leaves every forward level as it was. */
  lemma SetBackwardFrame<V>(nodes: seq<Node<V>>, order: seq<int>, a: int, b: int)
    requires Shape(nodes, order) && 0 <= a < |nodes|
    ensures Shape(SetBackward(nodes, a, b), order)
    ensures Heights(SetBackward(nodes, a, b), order) == Heights(nodes, order)
    ensures EntriesOf(SetBackward(nodes, a, b), order) == EntriesOf(nodes, order)
    ensures forall l :: LevelOk(nodes, order, l) ==> LevelOk(SetBackward(nodes, a, b), order, l)
  {
    var n2 := SetBackward(nodes, a, b);
    var hs := Heights(nodes, order);
    assert Heights(n2, order) == hs;
    forall l | LevelOk(nodes, order, l) ensures LevelOk(n2, order, l) {
      forall q | 0 <= q <= |order| && 0 <= l < hs[q] && l < |n2[At(order, q)].forward| && l < |n2[At(order, q)].span|
        ensures LinkOk(n2, order, hs, l, q)
      {
        assert LinkOk(nodes, order, hs, l, q);
      }
    }
  }

  /** insertNode's backward fix-up (lines 91-100) for a node spliced in after position p. */
  lemma BackwardIns<V>(nodes: seq<Node<V>>, order: seq<int>, n2: seq<Node<V>>, p: int, xa: int)
    requires Shape(nodes, order) && BackwardOk(nodes, order)
    requires 0 <= p <= |order| && 1 <= xa < |nodes| && xa !in order && |n2| == |nodes|
    requires forall c :: 0 <= c < |n2| && c != xa && (p == |order| || c != order[p]) ==> n2[c].backward == nodes[c].backward
    requires n2[xa].backward == (if p == 0 then Nil else order[p - 1])
    requires p < |order| ==> n2[order[p]].backward == xa
    ensures Chain(OrderIns(order, p, xa), |n2|)
    ensures BackwardOk(n2, OrderIns(order, p, xa))
  {
    var o := OrderIns(order, p, xa);
    ShapeIns(nodes, order, p, xa);
    OrderInsIndex(order, p, xa);
    forall i | 0 <= i < |o| ensures n2[o[i]].backward == (if i == 0 then Nil else o[i - 1]) {
      if i < p {
        assert order[i] != xa && (p == |order| || order[i] != order[p]);
        assert n2[order[i]].backward == nodes[order[i]].backward;
      } else if i > p + 1 {
        assert order[i - 1] != xa && order[i - 1] != order[p];
        assert n2[order[i - 1]].backward == nodes[order[i - 1]].backward;
      }
    }
    assert BackwardOk(n2, o);
  }

  /** deleteNode's backward fix-up (lines 115-119) for the node at position p + 1. */
  lemma BackwardDel<V>(nodes: seq<Node<V>>, order: seq<int>, n2: seq<Node<V>>, p: int)
    requires Shape(nodes, order) && BackwardOk(nodes, order)
    requires 0 <= p < |order| && |n2| == |nodes|
    requires forall c :: 0 <= c < |n2| && (p + 1 == |order| || c != order[p + 1]) ==> n2[c].backward == nodes[c].backward
    requires p + 1 < |order| ==> n2[order[p + 1]].backward == nodes[order[p]].backward
    ensures Chain(OrderDel(order, p), |n2|)
    ensures BackwardOk(n2, OrderDel(order, p))
  {
    var o := OrderDel(order, p);
    ShapeDel(nodes, order, p);
    OrderDelIndex(order, p);
    forall i | 0 <= i < |o| ensures n2[o[i]].backward == (if i == 0 then Nil else o[i - 1]) {
      if i < p {
        assert p + 1 == |order| || order[i] != order[p + 1];
        assert n2[order[i]].backward == nodes[order[i]].backward;
        assert nodes[order[i]].backward == (if i == 0 then Nil else order[i - 1]);
        assert i == 0 || o[i - 1] == order[i - 1];
      } else if i == p {
        assert nodes[order[p]].backward == (if p == 0 then Nil else order[p - 1]);
      } else {
        assert order[i + 1] != order[p + 1];
        assert n2[order[i + 1]].backward == nodes[order[i + 1]].backward;
        assert nodes[order[i + 1]].backward == order[i];
        assert o[i - 1] == order[i];
      }
    }
    assert Chain(o, |n2|);
    assert BackwardOk(n2, o);
  }
}

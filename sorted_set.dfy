/**
 * The sorted set of sortedset/sortedset.go: a skip list whose nodes live in
 * an arena (`nodes`, index 0 the header, Nil the nil pointer), with the
 * tail, length, level and member index updated in place. The ghost field
 * `order` lists the members along level 0; `Valid` ties every field to it
 * and `Elements` is the abstract value the operations are specified on.
 * Nodes are handed out as Entry copies of their score, member and payload.
 */
module SortedSets {
  import opened Entries
  import opened SkipShape
  import opened SkipLinks
  import opened SkipSteps
  import opened SkipOps
  import opened SkipRanges
  import opened SkipRanks

  class SortedSet<V(0)> {
    var nodes: seq<Node<V>>
    var tail: int
    var length: int
    var level: int
    var dict: map<string, int>
    ghost var order: seq<int>

    ghost predicate Valid()
      reads this
    {
      Good(nodes, order, level, length, tail, dict)
    }

    /** The members in skip-list order, with their scores and payloads. */
    ghost function Elements(): seq<Entry<V>>
      reads this
      requires Valid()
    {
      EntriesOf(nodes, order)
    }

    /** The members are in (score, member) order and distinct. */
    lemma ElementsOrdered()
      requires Valid()
      ensures Sorted(Elements()) && UniqueKeys(Elements())
    {
      DictUnique(dict, nodes, order);
    }

    /** New (lines 152-159): an empty set at level 1 whose header has all 32 levels. */
    constructor ()
      ensures Valid() && Elements() == []
      ensures length == 0 && level == 1 && dict == map[] && |nodes[0].forward| == MaxLevel
    {
      var none: V :| true;
      nodes := [Node(0, "", none, seq(MaxLevel, _ => Nil), seq(MaxLevel, _ => 0), Nil)];
      tail := Nil;
      length := 0;
      level := 1;
      dict := map[];
      order := [];
    }

    /** GetCount (lines 162-164). */
    method GetCount() returns (n: int)
      requires Valid()
      ensures n == |Elements()|
    {
      n := length;
    }

    /** PeekMin (lines 168-170): the first member, if any. */
    method PeekMin() returns (r: Option<Entry<V>>)
      requires Valid()
      ensures r == if |Elements()| == 0 then None else Some(Elements()[0])
    {
      BottomLevel(nodes, order, 0);
      var x := nodes[0].forward[0];
      if x == Nil {
        r := None;
      } else {
        r := Some(Entry(nodes[x].score, nodes[x].key, nodes[x].value));
      }
    }

    /** PeekMax (lines 183-185): the last member, read from the tail. */
    method PeekMax() returns (r: Option<Entry<V>>)
      requires Valid()
      ensures r == if |Elements()| == 0 then None else Some(Elements()[|Elements()| - 1])
    {
      if tail == Nil {
        r := None;
      } else {
        r := Some(Entry(nodes[tail].score, nodes[tail].key, nodes[tail].value));
      }
    }

    /** GetByKey (lines 421-423): the member's entry, from the index. */
    method GetByKey(key: string) returns (r: Option<Entry<V>>)
      requires Valid()
      ensures r == if key in Keys(Elements()) then Some(Elements()[IndexOf(Elements(), key)]) else None
    {
      if key in dict {
        DictFinds(dict, nodes, order, key);
        var x := dict[key];
        r := Some(Entry(nodes[x].score, nodes[x].key, nodes[x].value));
      } else {
        r := None;
      }
    }

    /**
     * AddOrUpdate (lines 198-218): a new member is inserted; a present one
     * only takes the new payload when its score is unchanged, and is
     * otherwise deleted and inserted again. Reports whether the member was new.
     */
    method AddOrUpdate(key: string, score: int, value: V) returns (added: bool)
      requires Valid()
      modifies this
      ensures Valid()
      ensures added <==> key !in Keys(old(Elements()))
      ensures Elements() == Upsert(old(Elements()), key, score, value)
    {
      var n, l, len, t, d; ghost var o;
      added, n, l, len, t, d, o := UpsertMember(nodes, order, level, length, tail, dict, key, score, value);
      nodes, level, length, tail, dict, order := n, l, len, t, d, o;
    }

    /**
     * Remove (lines 223-230): delete the member `key`, if present, and hand
     * back its entry.
     */
    method Remove(key: string) returns (r: Option<Entry<V>>)
      requires Valid()
      modifies this
      ensures Valid()
      ensures r == if key in Keys(old(Elements())) then Some(old(Elements())[IndexOf(old(Elements()), key)]) else None
      ensures Elements() == RemoveKey(old(Elements()), key)
    {
      var n, l, len, t, d; ghost var o;
      r, n, l, len, t, d, o := RemoveMember(nodes, order, level, length, tail, dict, key);
      nodes, level, length, tail, dict, order := n, l, len, t, d, o;
    }

    /** PopMin (lines 174-180): remove and return the first member, if any. */
    method PopMin() returns (r: Option<Entry<V>>)
      requires Valid()
      modifies this
      ensures Valid()
      ensures r == if |old(Elements())| == 0 then None else Some(old(Elements())[0])
      ensures Elements() == if |old(Elements())| == 0 then old(Elements()) else old(Elements())[1..]
    {
      r := PeekMin();
      if r.Some? {
        DictUnique(dict, nodes, order);
        IndexOfUnique(Elements(), 0);
        var _ := Remove(r.value.key);
      }
    }

    /** PopMax (lines 189-195): remove and return the last member, if any. */
    method PopMax() returns (r: Option<Entry<V>>)
      requires Valid()
      modifies this
      ensures Valid()
      ensures r == if |old(Elements())| == 0 then None else Some(old(Elements())[|old(Elements())| - 1])
      ensures Elements() == if |old(Elements())| == 0 then old(Elements()) else old(Elements())[..|old(Elements())| - 1]
    {
      r := PeekMax();
      if r.Some? {
        DictUnique(dict, nodes, order);
        IndexOfUnique(Elements(), |Elements()| - 1);
        var _ := Remove(r.value.key);
      }
    }

    /**
     * GetByScoreRange (lines 239-344) as written: the members whose scores
     * lie in the requested interval, up to the limit, in the direction the
     * bounds give; a descending query that no member reaches may also hand
     * back the header as if it were a member.
     */
    method GetByScoreRange(start: int, end: int, options: Option<RangeOptions>) returns (r: seq<Entry<V>>)
      requires Valid()
      ensures r == ScoreRangeAsWritten(Elements(), Entry(0, "", nodes[0].value), start, end, options)
    {
      r := ScoreRangeQuery(nodes, order, level, length, tail, dict, start, end, options, true);
    }

    /** GetByScoreRange with the descending walk stopped at the header: exactly the members in range. */
    method GetByScoreRangeFixed(start: int, end: int, options: Option<RangeOptions>) returns (r: seq<Entry<V>>)
      requires Valid()
      ensures r == ScoreRange(Elements(), start, end, options)
    {
      r := ScoreRangeQuery(nodes, order, level, length, tail, dict, start, end, options, false);
    }

    /**
     * GetByRankRange (lines 347-408): the members of the resolved ranks, in
     * the caller's order; with `remove` they are deleted, otherwise nothing
     * changes.
     */
    method GetByRankRange(start: int, end: int, remove: bool) returns (r: seq<Entry<V>>)
      requires Valid()
      modifies this
      ensures Valid()
      ensures r == RankRange(old(Elements()), start, end)
      ensures remove ==> Elements() == RankRangeRemaining(old(Elements()), start, end)
      ensures !remove ==> unchanged(this)
    {
      if remove {
        r := RemoveRankRange(start, end);
      } else {
        r := ReadRankRange(start, end);
      }
    }

    /** GetByRankRange without `remove`: the set is only read. */
    method ReadRankRange(start: int, end: int) returns (r: seq<Entry<V>>)
      requires Valid()
      ensures r == RankRange(Elements(), start, end)
    {
      var n, l, len, t, d; ghost var o;
      r, n, l, len, t, d, o := RankRangeQuery(nodes, order, level, length, tail, dict, start, end, false);
    }

    /** GetByRankRange with `remove`: the set loses the members it reports. */
    method RemoveRankRange(start: int, end: int) returns (r: seq<Entry<V>>)
      requires Valid()
      modifies this
      ensures Valid()
      ensures r == RankRange(old(Elements()), start, end)
      ensures Elements() == RankRangeRemaining(old(Elements()), start, end)
    {
      var n, l, len, t, d; ghost var o;
      r, n, l, len, t, d, o := RankRangeQuery(nodes, order, level, length, tail, dict, start, end, true);
      nodes, level, length, tail, dict, order := n, l, len, t, d, o;
    }

    /** GetByRank (lines 412-418): the member of the resolved rank, if any, removed with `remove`. */
    method GetByRank(rank: int, remove: bool) returns (r: Option<Entry<V>>)
      requires Valid()
      modifies this
      ensures Valid()
      ensures r == AtRank(old(Elements()), rank)
      ensures Elements() == if remove then RankRangeRemaining(old(Elements()), rank, rank) else old(Elements())
      ensures !remove ==> unchanged(this)
    {
      RankRangeSingle(Elements(), rank);
      var found := GetByRankRange(rank, rank, remove);
      if |found| == 1 {
        r := Some(found[0]);
      } else {
        r := None;
      }
    }

    /**
     * FindRank (lines 426-446) as written: the 1-based rank of a member and 0
     * for a key that is not one, except that the member "" is reported at
     * rank 0 when the top level skips it, since the header's key is "" too.
     */
    method FindRank(key: string) returns (rank: int)
      requires Valid()
      ensures rank == if key == "" && HidesEmpty() then 0 else RankOf(Elements(), key)
    {
      rank := FindRankWalk(nodes, order, level, length, tail, dict, key, false);
    }

    /**
     * The member "" is present and the top level passes over it, so that
     * FindRank's search stays on the header, whose key is "" as well.
     */
    ghost predicate HidesEmpty()
      reads this
      requires Valid()
    {
      "" in Keys(Elements()) && HeaderAtTop(nodes, order, level, RankOf(Elements(), ""))
    }

    /** FindRank comparing the node reached with the member's node: the 1-based rank, or 0 when absent. */
    method FindRankFixed(key: string) returns (rank: int)
      requires Valid()
      ensures rank == RankOf(Elements(), key)
      ensures rank == 0 <==> key !in Keys(Elements())
      ensures rank > 0 ==> Elements()[rank - 1].key == key
    {
      rank := FindRankWalk(nodes, order, level, length, tail, dict, key, true);
    }
  }
}

/**
 * The abstract value of a sorted set: a sequence of entries kept in the
 * skip list's total order, and the operations of the skip list stated on
 * that sequence. The imperative skip list in SortedSets is proved to
 * behave as these functions say.
 */
module Entries {
  import Lex

  /** One member of a sorted set as a caller sees it: score, member, payload. */
  datatype Entry<V> = Entry(score: int, key: string, value: V)

  datatype Option<T> = None | Some(value: T)

  /** The skip list's total order: score ascending, then member ascending. */
  predicate Before(s1: int, k1: string, s2: int, k2: string)
  {
    s1 < s2 || (s1 == s2 && Lex.Less(k1, k2))
  }

  predicate Precedes<V>(a: Entry<V>, b: Entry<V>)
  {
    Before(a.score, a.key, b.score, b.key)
  }

  ghost predicate Sorted<V>(s: seq<Entry<V>>)
  {
    forall i, j :: 0 <= i < j < |s| ==> Precedes(s[i], s[j])
  }

  ghost predicate UniqueKeys<V>(s: seq<Entry<V>>)
  {
    forall i, j :: 0 <= i < j < |s| ==> s[i].key != s[j].key
  }

  function Keys<V>(s: seq<Entry<V>>): set<string>
  {
    set i | 0 <= i < |s| :: s[i].key
  }

  lemma BeforeIrreflexive(s: int, k: string)
    ensures !Before(s, k, s, k)
  {
    Lex.Irreflexive(k);
  }

  lemma BeforeTransitive(s1: int, k1: string, s2: int, k2: string, s3: int, k3: string)
    requires Before(s1, k1, s2, k2) && Before(s2, k2, s3, k3)
    ensures Before(s1, k1, s3, k3)
  {
    if s1 == s2 == s3 {
      Lex.Transitive(k1, k2, k3);
    }
  }

  lemma BeforeTotal(s1: int, k1: string, s2: int, k2: string)
    ensures (s1 == s2 && k1 == k2) || Before(s1, k1, s2, k2) || Before(s2, k2, s1, k1)
  {
    Lex.Total(k1, k2);
  }

  // ---------------------------------------------------------------------------
  // Prefixes selected by a search predicate

  /**
   * A search predicate on (score, member) is monotone when everything that
   * sorts before a satisfying pair satisfies it too; the skip list's searches
   * ("strictly before x", "at or before x", "score below s") are all of this kind.
   */
  ghost predicate Monotone(P: (int, string) -> bool)
  {
    forall s1, k1, s2, k2 :: Before(s1, k1, s2, k2) && P(s2, k2) ==> P(s1, k1)
  }

  /** Number of leading entries of `s` whose (score, member) satisfy `P`. */
  function PrefixLen<V>(s: seq<Entry<V>>, P: (int, string) -> bool): (r: nat)
    ensures r <= |s|
    ensures forall i :: 0 <= i < r ==> P(s[i].score, s[i].key)
    ensures r < |s| ==> !P(s[r].score, s[r].key)
  {
    if s == [] || !P(s[0].score, s[0].key) then 0 else 1 + PrefixLen(s[1..], P)
  }

  /** In a sorted sequence a monotone predicate holds exactly on a prefix. */
  lemma PrefixSplit<V>(s: seq<Entry<V>>, P: (int, string) -> bool)
    requires Sorted(s) && Monotone(P)
    ensures forall i :: 0 <= i < |s| ==> (P(s[i].score, s[i].key) <==> i < PrefixLen(s, P))
  {
    var r := PrefixLen(s, P);
    forall i | r < i < |s|
      ensures !P(s[i].score, s[i].key)
    {
      assert Precedes(s[r], s[i]);
    }
  }

  /** In a sorted sequence an entry's own pair finds it: exactly the entries before it sort below it. */
  lemma PrefixLenAt<V>(s: seq<Entry<V>>, j: int)
    requires Sorted(s) && 0 <= j < |s|
    ensures PrefixLen(s, BelowPair(s[j].score, s[j].key)) == j
    ensures PrefixLen(s, AtOrBelowPair(s[j].score, s[j].key)) == j + 1
  {
    BelowPairMonotone(s[j].score, s[j].key);
    AtOrBelowPairMonotone(s[j].score, s[j].key);
    PrefixSplit(s, BelowPair(s[j].score, s[j].key));
    PrefixSplit(s, AtOrBelowPair(s[j].score, s[j].key));
    BeforeIrreflexive(s[j].score, s[j].key);
    forall i | j < i < |s| ensures !AtOrBelowPair(s[j].score, s[j].key)(s[i].score, s[i].key) {
      assert Precedes(s[j], s[i]);
      if s[j].score == s[i].score {
        Lex.Asymmetric(s[j].key, s[i].key);
      }
      BeforeIrreflexive(s[i].score, s[i].key);
    }
  }

  /** Pairs strictly before (score, key). */
  function BelowPair(score: int, key: string): (int, string) -> bool
  {
    (s: int, k: string) => Before(s, k, score, key)
  }

  /** Pairs at or before (score, key). */
  function AtOrBelowPair(score: int, key: string): (int, string) -> bool
  {
    (s: int, k: string) => Before(s, k, score, key) || (s == score && k == key)
  }

  /** Pairs whose score is below `bound` (or at most `bound` when `inclusive`). */
  function ScoreBelow(bound: int, inclusive: bool): (int, string) -> bool
  {
    (s: int, k: string) => s < bound || (inclusive && s == bound)
  }

  lemma BelowPairMonotone(score: int, key: string)
    ensures Monotone(BelowPair(score, key))
  {
    forall s1, k1, s2, k2 | Before(s1, k1, s2, k2) && BelowPair(score, key)(s2, k2)
      ensures BelowPair(score, key)(s1, k1)
    {
      BeforeTransitive(s1, k1, s2, k2, score, key);
    }
  }

  lemma AtOrBelowPairMonotone(score: int, key: string)
    ensures Monotone(AtOrBelowPair(score, key))
  {
    forall s1, k1, s2, k2 | Before(s1, k1, s2, k2) && AtOrBelowPair(score, key)(s2, k2)
      ensures AtOrBelowPair(score, key)(s1, k1)
    {
      if Before(s2, k2, score, key) {
        BeforeTransitive(s1, k1, s2, k2, score, key);
      }
    }
  }

  lemma ScoreBelowMonotone(bound: int, inclusive: bool)
    ensures Monotone(ScoreBelow(bound, inclusive))
  {
  }

  // ---------------------------------------------------------------------------
  // Positional edits

  function InsertAt<V>(s: seq<Entry<V>>, p: nat, e: Entry<V>): (r: seq<Entry<V>>)
    requires p <= |s|
  {
    s[..p] + [e] + s[p..]
  }

  function RemoveAt<V>(s: seq<Entry<V>>, p: nat): (r: seq<Entry<V>>)
    requires p < |s|
  {
    s[..p] + s[p + 1..]
  }

  lemma InsertAtKeys<V>(s: seq<Entry<V>>, p: nat, e: Entry<V>)
    requires p <= |s|
    ensures Keys(InsertAt(s, p, e)) == Keys(s) + {e.key}
  {
    var r := InsertAt(s, p, e);
    forall k | k in Keys(s) ensures k in Keys(r) {
      var j :| 0 <= j < |s| && s[j].key == k;
      if j < p { assert r[j].key == k; } else { assert r[j + 1].key == k; }
    }
    assert r[p] == e;
  }

  /** Position of the entry for `key`, or -1. */
  function IndexOf<V>(s: seq<Entry<V>>, key: string): (r: int)
    ensures -1 <= r < |s|
    ensures r >= 0 ==> s[r].key == key
    ensures r < 0 <==> key !in Keys(s)
  {
    if s == [] then -1
    else if s[0].key == key then 0
    else
      var r := IndexOf(s[1..], key);
      assert Keys(s) == {s[0].key} + Keys(s[1..]) by {
        forall k | k in Keys(s) ensures k in {s[0].key} + Keys(s[1..]) {
          var i :| 0 <= i < |s| && s[i].key == k;
          if i > 0 { assert s[1..][i - 1].key == k; }
        }
      }
      if r < 0 then -1 else r + 1
  }

  lemma IndexOfUnique<V>(s: seq<Entry<V>>, i: int)
    requires UniqueKeys(s) && 0 <= i < |s|
    ensures IndexOf(s, s[i].key) == i
  {
    var r := IndexOf(s, s[i].key);
    assert r >= 0 by { assert s[i].key in Keys(s); }
  }

  /** `s` with `e` put where the order places it. */
  function InsertSorted<V>(s: seq<Entry<V>>, e: Entry<V>): (r: seq<Entry<V>>)
  {
    InsertAt(s, PrefixLen(s, BelowPair(e.score, e.key)), e)
  }

  /** `s` without the entry for `key`, if any. */
  function RemoveKey<V>(s: seq<Entry<V>>, key: string): (r: seq<Entry<V>>)
  {
    var i := IndexOf(s, key);
    if i < 0 then s else RemoveAt(s, i)
  }

  /**
   * AddOrUpdate on the abstract value: an absent member is inserted in order;
   * a present one keeps its place and takes the new payload when the score is
   * unchanged, and is otherwise removed and re-inserted with the new score.
   */
  function Upsert<V>(s: seq<Entry<V>>, key: string, score: int, value: V): (r: seq<Entry<V>>)
  {
    var i := IndexOf(s, key);
    if i >= 0 && s[i].score == score then s[i := s[i].(value := value)]
    else InsertSorted(RemoveKey(s, key), Entry(score, key, value))
  }

  lemma RemoveAtProps<V>(s: seq<Entry<V>>, p: nat)
    requires p < |s| && Sorted(s) && UniqueKeys(s)
    ensures Sorted(RemoveAt(s, p)) && UniqueKeys(RemoveAt(s, p))
    ensures Keys(RemoveAt(s, p)) == Keys(s) - {s[p].key}
    ensures forall e :: e in RemoveAt(s, p) <==> e in s && e.key != s[p].key
  {
    var r := RemoveAt(s, p);
    RemoveAtIndex(s, p);
    forall i, j | 0 <= i < j < |r| ensures Precedes(r[i], r[j]) && r[i].key != r[j].key {
      var i', j' := if i < p then i else i + 1, if j < p then j else j + 1;
      assert Precedes(s[i'], s[j']) && s[i'].key != s[j'].key;
    }
    RemoveAtMembers(s, p);
  }

  lemma RemoveAtIndex<V>(s: seq<Entry<V>>, p: nat)
    requires p < |s|
    ensures |RemoveAt(s, p)| == |s| - 1
    ensures forall i :: 0 <= i < |s| - 1 ==> RemoveAt(s, p)[i] == if i < p then s[i] else s[i + 1]
  {
  }

  lemma RemoveAtMembers<V>(s: seq<Entry<V>>, p: nat)
    requires p < |s| && UniqueKeys(s)
    ensures Keys(RemoveAt(s, p)) == Keys(s) - {s[p].key}
    ensures forall e :: e in RemoveAt(s, p) <==> e in s && e.key != s[p].key
  {
    var r := RemoveAt(s, p);
    RemoveAtIndex(s, p);
    forall e ensures e in r <==> e in s && e.key != s[p].key {
      if e in s && e.key != s[p].key {
        var i :| 0 <= i < |s| && s[i] == e;
        if i < p { assert r[i] == e; } else { assert r[i - 1] == e; }
      }
      if e in r {
        var i :| 0 <= i < |r| && r[i] == e;
        if i < p { assert s[i] == e; } else { assert s[i + 1] == e; }
      }
    }
    RemoveAtKeys(s, p);
  }

  lemma RemoveAtKeys<V>(s: seq<Entry<V>>, p: nat)
    requires p < |s| && UniqueKeys(s)
    ensures Keys(RemoveAt(s, p)) == Keys(s) - {s[p].key}
  {
    var r := RemoveAt(s, p);
    RemoveAtIndex(s, p);
    forall k | k in Keys(s) - {s[p].key} ensures k in Keys(r) {
      var i :| 0 <= i < |s| && s[i].key == k;
      if i < p { assert r[i].key == k; } else { assert r[i - 1].key == k; }
    }
    forall k | k in Keys(r) ensures k in Keys(s) - {s[p].key} {
      var i :| 0 <= i < |r| && r[i].key == k;
      if i < p { assert s[i].key == k; } else { assert s[i + 1].key == k; }
    }
  }

  /** Order and member set depend only on the scores and members, not on the payloads. */
  lemma SameOrder<V>(s: seq<Entry<V>>, s2: seq<Entry<V>>)
    requires |s| == |s2| && forall i :: 0 <= i < |s| ==> s[i].score == s2[i].score && s[i].key == s2[i].key
    ensures Sorted(s) ==> Sorted(s2)
    ensures Keys(s2) == Keys(s)
  {
    if Sorted(s) {
      forall a, b | 0 <= a < b < |s2| ensures Precedes(s2[a], s2[b]) {
        assert Precedes(s[a], s[b]);
      }
    }
    forall k ensures k in Keys(s2) <==> k in Keys(s) {
      if k in Keys(s) {
        var j :| 0 <= j < |s| && s[j].key == k;
        assert s2[j].key == k;
      }
      if k in Keys(s2) {
        var j :| 0 <= j < |s2| && s2[j].key == k;
        assert s[j].key == k;
      }
    }
  }

  lemma InsertAtIndex<V>(s: seq<Entry<V>>, p: nat, e: Entry<V>)
    requires p <= |s|
    ensures |InsertAt(s, p, e)| == |s| + 1
    ensures forall i :: 0 <= i < |s| + 1 ==> InsertAt(s, p, e)[i] == if i < p then s[i] else if i == p then e else s[i - 1]
  {
  }

  lemma InsertSortedProps<V>(s: seq<Entry<V>>, e: Entry<V>)
    requires Sorted(s) && UniqueKeys(s) && e.key !in Keys(s)
    ensures Sorted(InsertSorted(s, e)) && UniqueKeys(InsertSorted(s, e))
    ensures Keys(InsertSorted(s, e)) == Keys(s) + {e.key}
    ensures |InsertSorted(s, e)| == |s| + 1
    ensures forall x :: x in InsertSorted(s, e) <==> x in s || x == e
  {
    var p := PrefixLen(s, BelowPair(e.score, e.key));
    InsertAtIndex(s, p, e);
    InsertSortedOrder(s, e);
    InsertAtKeys(s, p, e);
    var r := InsertSorted(s, e);
    forall i, j | 0 <= i < j < |r| ensures r[i].key != r[j].key {
      if i == p { assert s[j - 1].key in Keys(s); }
      if j == p { assert s[i].key in Keys(s); }
    }
    assert r == s[..p] + [e] + s[p..];
  }

  lemma InsertSortedOrder<V>(s: seq<Entry<V>>, e: Entry<V>)
    requires Sorted(s) && e.key !in Keys(s)
    ensures Sorted(InsertSorted(s, e))
  {
    var P := BelowPair(e.score, e.key);
    var p := PrefixLen(s, P);
    BelowPairMonotone(e.score, e.key);
    PrefixSplit(s, P);
    InsertAtIndex(s, p, e);
    var r := InsertSorted(s, e);
    forall i, j | 0 <= i < j < |r| ensures Precedes(r[i], r[j]) {
      if j == p {
        assert P(s[i].score, s[i].key);
      } else if i == p {
        assert s[j - 1].key != e.key by { assert s[j - 1].key in Keys(s); }
        BeforeTotal(e.score, e.key, s[j - 1].score, s[j - 1].key);
      }
    }
  }

  /**
   * What AddOrUpdate promises: the order and uniqueness of members are kept,
   * the member is present afterwards with the given score and payload, the
   * count grows by one exactly when the member was absent, and every other
   * member's entry is left as it was.
   */
  lemma UpsertProps<V>(s: seq<Entry<V>>, key: string, score: int, value: V)
    requires Sorted(s) && UniqueKeys(s)
    ensures var r := Upsert(s, key, score, value);
      && Sorted(r) && UniqueKeys(r)
      && Keys(r) == Keys(s) + {key}
      && |r| == (if key in Keys(s) then |s| else |s| + 1)
      && Entry(score, key, value) in r
      && (forall x: Entry<V> :: x.key != key ==> (x in r <==> x in s))
  {
    var i := IndexOf(s, key);
    var r := Upsert(s, key, score, value);
    if i >= 0 && s[i].score == score {
      forall a, b | 0 <= a < b < |r| ensures Precedes(r[a], r[b]) && r[a].key != r[b].key {
        assert Precedes(s[a], s[b]);
      }
      assert Keys(r) == Keys(s) by {
        forall k ensures k in Keys(r) <==> k in Keys(s) {
          if k in Keys(s) { var j :| 0 <= j < |s| && s[j].key == k; assert r[j].key == k; }
          if k in Keys(r) { var j :| 0 <= j < |r| && r[j].key == k; assert s[j].key == k; }
        }
      }
      forall x: Entry<V> | x.key != key ensures x in r <==> x in s {
        if x in s { var j :| 0 <= j < |s| && s[j] == x; assert j != i; assert r[j] == x; }
        if x in r { var j :| 0 <= j < |r| && r[j] == x; assert j != i; assert s[j] == x; }
      }
      assert r[i] == Entry(score, key, value);
    } else {
      var t := RemoveKey(s, key);
      if i >= 0 {
        RemoveAtProps(s, i);
      }
      InsertSortedProps(t, Entry(score, key, value));
    }
  }

  /**
   * Re-adding a member with its current score moves nothing: the count and
   * the member's position are unchanged.
   */
  lemma UpsertSameScore<V>(s: seq<Entry<V>>, key: string, score: int, value: V)
    requires UniqueKeys(s)
    requires IndexOf(s, key) >= 0 && s[IndexOf(s, key)].score == score
    ensures |Upsert(s, key, score, value)| == |s|
    ensures IndexOf(Upsert(s, key, score, value), key) == IndexOf(s, key)
  {
    var i := IndexOf(s, key);
    var r := Upsert(s, key, score, value);
    assert UniqueKeys(r) by {
      forall a, b | 0 <= a < b < |r| ensures r[a].key != r[b].key {
        assert s[a].key != s[b].key;
      }
    }
    IndexOfUnique(r, i);
  }

  // ---------------------------------------------------------------------------
  // Rank and score windows

  /** 1-based rank of `key`, or 0 when it is absent. */
  function RankOf<V>(s: seq<Entry<V>>, key: string): (r: nat)
  {
    IndexOf(s, key) + 1
  }

  function Reverse<T>(s: seq<T>): (r: seq<T>)
    ensures |r| == |s|
  {
    if s == [] then [] else Reverse(s[1..]) + [s[0]]
  }

  lemma {:induction false} ReverseMultiset<T>(s: seq<T>)
    ensures multiset(Reverse(s)) == multiset(s)
  {
    if s != [] {
      ReverseMultiset(s[1..]);
      assert s == [s[0]] + s[1..];
    }
  }

  lemma {:induction false} ReverseAt<T>(s: seq<T>, k: nat)
    requires k < |s|
    ensures Reverse(s)[k] == s[|s| - 1 - k]
  {
    if k < |s| - 1 {
      ReverseAt(s[1..], k);
    }
  }

  /**
   * Python-style resolution of a rank bound: a negative rank counts from the
   * end (-1 is the last), and anything that ends up at or below 0 becomes 1.
   */
  function ResolveRank(rank: int, count: nat): (r: int)
    ensures r >= 1
    ensures rank > 0 ==> r == rank
    ensures rank < 0 && count + rank >= 0 ==> r == count + rank + 1
    ensures count + rank < 0 || rank == 0 ==> r == 1
  {
    var a := if rank < 0 then count + rank + 1 else rank;
    if a <= 0 then 1 else a
  }

  /** The entries with 1-based ranks lo..hi (clipped to the sequence). */
  function RankSlice<V>(s: seq<Entry<V>>, lo: int, hi: int): (r: seq<Entry<V>>)
    requires 1 <= lo
  {
    if lo > |s| || hi < lo then [] else s[lo - 1 .. if hi < |s| then hi else |s|]
  }

  /**
   * GetByRankRange on the abstract value: both bounds are resolved, the
   * window between them is taken in ascending order and reversed when the
   * resolved start lies after the resolved end.
   */
  function RankRange<V>(s: seq<Entry<V>>, start: int, end: int): (r: seq<Entry<V>>)
  {
    var a := ResolveRank(start, |s|);
    var b := ResolveRank(end, |s|);
    if a <= b then RankSlice(s, a, b) else Reverse(RankSlice(s, b, a))
  }

  /** What remains after GetByRankRange with removal. */
  function RankRangeRemaining<V>(s: seq<Entry<V>>, start: int, end: int): (r: seq<Entry<V>>)
  {
    var a := ResolveRank(start, |s|);
    var b := ResolveRank(end, |s|);
    var lo := if a <= b then a else b;
    var hi := if a <= b then b else a;
    if lo > |s| then s else s[..lo - 1] + s[if hi < |s| then hi else |s|..]
  }

  /**
   * GetByRankRange's window: with resolved bounds a <= b it is the members
   * of ranks a .. b in ascending order, with a > b the members of ranks
   * a down to b; ranks past the count are not there.
   */
  lemma RankRangeAt<V>(s: seq<Entry<V>>, start: int, end: int)
    ensures var a, b := ResolveRank(start, |s|), ResolveRank(end, |s|);
      var r := RankRange(s, start, end);
      var lo, hi := if a <= b then a else b, if a <= b then b else a;
      var top := if hi < |s| then hi else |s|;
      && |r| == (if lo <= top then top - lo + 1 else 0)
      && forall i :: 0 <= i < |r| ==> r[i] == if a <= b then s[lo - 1 + i] else s[top - 1 - i]
  {
    var a, b := ResolveRank(start, |s|), ResolveRank(end, |s|);
    if a > b {
      var w := RankSlice(s, b, a);
      forall i | 0 <= i < |w| ensures Reverse(w)[i] == w[|w| - 1 - i] {
        ReverseAt(w, i);
      }
    }
  }

  /** Cutting the slice i..j out of a sequence: the slice and what is left make up the whole. */
  lemma SplitMultiset<T>(s: seq<T>, i: int, j: int)
    requires 0 <= i <= j <= |s|
    ensures multiset(s[i..j]) + multiset(s[..i] + s[j..]) == multiset(s)
  {
    assert s == s[..i] + s[i..j] + s[j..];
    assert multiset(s[..i] + s[j..]) == multiset(s[..i]) + multiset(s[j..]);
  }

  /** The entries GetByRankRange reports and those it leaves behind when removing make up the set. */
  lemma RankRangePartition<V>(s: seq<Entry<V>>, start: int, end: int)
    ensures multiset(RankRange(s, start, end)) + multiset(RankRangeRemaining(s, start, end)) == multiset(s)
  {
    var a, b := ResolveRank(start, |s|), ResolveRank(end, |s|);
    WindowPartition(s, a, b, RankRange(s, start, end), RankRangeRemaining(s, start, end));
  }

  /** RankRangePartition once both bounds are resolved to a and b. */
  lemma WindowPartition<V>(s: seq<Entry<V>>, a: int, b: int, r: seq<Entry<V>>, rest: seq<Entry<V>>)
    requires a >= 1 && b >= 1
    requires r == if a <= b then RankSlice(s, a, b) else Reverse(RankSlice(s, b, a))
    requires var lo, hi := if a <= b then a else b, if a <= b then b else a;
      rest == if lo > |s| then s else s[..lo - 1] + s[if hi < |s| then hi else |s|..]
    ensures multiset(r) + multiset(rest) == multiset(s)
  {
    var lo, hi := if a <= b then a else b, if a <= b then b else a;
    var w := RankSlice(s, lo, hi);
    if lo <= |s| {
      var top := if hi < |s| then hi else |s|;
      assert w == s[lo - 1..top];
      ReverseMultiset(w);
      CutOut(s, lo - 1, top, r, rest);
    } else {
      assert r == [];
    }
  }

  /** A sequence holding the slice i..j, and the rest of s around it, together hold s. */
  lemma CutOut<T>(s: seq<T>, i: int, j: int, r: seq<T>, rest: seq<T>)
    requires 0 <= i <= j <= |s| && multiset(r) == multiset(s[i..j]) && rest == s[..i] + s[j..]
    ensures multiset(r) + multiset(rest) == multiset(s)
  {
    SplitMultiset(s, i, j);
  }

  /** GetByRank (lines 412-418) on the abstract value: the member of the resolved rank, if there is one. */
  function AtRank<V>(s: seq<Entry<V>>, rank: int): (r: Option<Entry<V>>)
  {
    var a := ResolveRank(rank, |s|);
    if a <= |s| then Some(s[a - 1]) else None
  }

  /** GetByRankRange(rank, rank) reports one entry exactly when AtRank finds one, and then that one. */
  lemma RankRangeSingle<V>(s: seq<Entry<V>>, rank: int)
    ensures var r := RankRange(s, rank, rank);
      (|r| == 1 <==> AtRank(s, rank).Some?) && (|r| == 1 ==> r[0] == AtRank(s, rank).value)
  {
  }

  function Take<T>(s: seq<T>, n: int): (r: seq<T>)
  {
    if n < |s| then (if n <= 0 then [] else s[..n]) else s
  }

  /** Score `x` lies in the interval from `lo` to `hi` with the given exclusivity. */
  predicate InInterval(x: int, lo: int, hi: int, excludeLo: bool, excludeHi: bool)
  {
    (if excludeLo then lo < x else lo <= x) && (if excludeHi then x < hi else x <= hi)
  }

  /** The entries whose score lies in the interval, in order. */
  function Within<V>(s: seq<Entry<V>>, lo: int, hi: int, excludeLo: bool, excludeHi: bool): (r: seq<Entry<V>>)
    ensures forall i :: 0 <= i < |r| ==> r[i] in s && InInterval(r[i].score, lo, hi, excludeLo, excludeHi)
    ensures forall i :: 0 <= i < |s| && InInterval(s[i].score, lo, hi, excludeLo, excludeHi) ==> s[i] in r
  {
    if s == [] then []
    else
      var head := if InInterval(s[0].score, lo, hi, excludeLo, excludeHi) then [s[0]] else [];
      head + Within(s[1..], lo, hi, excludeLo, excludeHi)
  }

  /**
   * The window of a sequence sorted by score between two bounds: past the p
   * entries below the lower bound, up to the m entries within the upper one.
   */
  function ScoreWindow<V>(s: seq<Entry<V>>, lo: int, hi: int, excludeLo: bool, excludeHi: bool): (r: seq<Entry<V>>)
  {
    var p := PrefixLen(s, ScoreBelow(lo, excludeLo));
    var m := PrefixLen(s, ScoreBelow(hi, !excludeHi));
    if p <= m then s[p..m] else []
  }

  /** Filtering by an interval that holds exactly on positions p .. m-1 keeps that slice. */
  lemma {:induction false} WithinSlice<V>(s: seq<Entry<V>>, lo: int, hi: int, excludeLo: bool, excludeHi: bool, p: int, m: int)
    requires 0 <= p <= m <= |s|
    requires forall i :: 0 <= i < |s| ==> (InInterval(s[i].score, lo, hi, excludeLo, excludeHi) <==> p <= i < m)
    ensures Within(s, lo, hi, excludeLo, excludeHi) == s[p..m]
  {
    if s != [] {
      var t := s[1..];
      var p' := if p == 0 then 0 else p - 1;
      var m' := if m == 0 then 0 else m - 1;
      var inside := InInterval(s[0].score, lo, hi, excludeLo, excludeHi);
      assert inside <==> p == 0 < m;
      forall i | 0 <= i < |t| ensures InInterval(t[i].score, lo, hi, excludeLo, excludeHi) <==> p' <= i < m' {
        assert t[i] == s[i + 1];
      }
      WithinSlice(t, lo, hi, excludeLo, excludeHi, p', m');
      SliceTail(s, p, m);
      assert Within(s, lo, hi, excludeLo, excludeHi) == (if inside then [s[0]] else []) + t[p'..m'];
    }
  }

  /** A slice seen from the tail of the sequence: the head joins it when the slice starts at 0. */
  lemma SliceTail<T>(s: seq<T>, p: int, m: int)
    requires 0 <= p <= m <= |s| && s != []
    ensures var p', m' := if p == 0 then 0 else p - 1, if m == 0 then 0 else m - 1;
      s[p..m] == (if p == 0 < m then [s[0]] else []) + s[1..][p'..m']
  {
    if p == 0 < m {
      assert s[p..m] == [s[0]] + s[1..][0..m - 1];
    } else if p > 0 {
      assert s[p..m] == s[1..][p - 1..m - 1];
    }
  }

  /** On a sequence sorted by score the window is exactly the filter by the interval. */
  lemma ScoreWindowWithin<V>(s: seq<Entry<V>>, lo: int, hi: int, excludeLo: bool, excludeHi: bool)
    requires Sorted(s)
    ensures ScoreWindow(s, lo, hi, excludeLo, excludeHi) == Within(s, lo, hi, excludeLo, excludeHi)
  {
    var P, Q := ScoreBelow(lo, excludeLo), ScoreBelow(hi, !excludeHi);
    ScoreBelowMonotone(lo, excludeLo);
    ScoreBelowMonotone(hi, !excludeHi);
    PrefixSplit(s, P);
    PrefixSplit(s, Q);
    var p, m := PrefixLen(s, P), PrefixLen(s, Q);
    var p' := if p <= m then p else m;
    WithinSlice(s, lo, hi, excludeLo, excludeHi, p', m);
  }

  /** The options of GetByScoreRange (lines 232-236); no options at all is None. */
  datatype RangeOptions = RangeOptions(limit: int, excludeStart: bool, excludeEnd: bool)

  /** The cap on the number of results when no positive limit is given, 2^31. */
  const DefaultLimit: int := 2147483648

  function LimitOf(options: Option<RangeOptions>): (r: int)
    ensures r > 0
    ensures options.Some? && options.value.limit > 0 ==> r == options.value.limit
    ensures !(options.Some? && options.value.limit > 0) ==> r == DefaultLimit
  {
    if options.Some? && options.value.limit > 0 then options.value.limit else DefaultLimit
  }

  predicate ExcludeStart(options: Option<RangeOptions>)
  {
    options.Some? && options.value.excludeStart
  }

  predicate ExcludeEnd(options: Option<RangeOptions>)
  {
    options.Some? && options.value.excludeEnd
  }

  /**
   * GetByScoreRange on the abstract value, as intended: the members whose
   * scores lie between start and end, ascending; when start > end the bounds
   * and their exclusivity are swapped and the members come in descending
   * order. At most LimitOf(options) of them.
   */
  function ScoreRange<V>(s: seq<Entry<V>>, start: int, end: int, options: Option<RangeOptions>): (r: seq<Entry<V>>)
  {
    var limit := LimitOf(options);
    if start > end then Take(Reverse(ScoreWindow(s, end, start, ExcludeEnd(options), ExcludeStart(options))), limit)
    else Take(ScoreWindow(s, start, end, ExcludeStart(options), ExcludeEnd(options)), limit)
  }

  /**
   * The case in which the descending walk of GetByScoreRange (lines 279-297)
   * starts from the header, because no member lies within the upper bound,
   * and the header's score 0 passes the lower-bound test, so that the header
   * itself is reported.
   */
  predicate HeaderLeaks<V>(s: seq<Entry<V>>, start: int, end: int, options: Option<RangeOptions>)
  {
    && start > end && |s| > 0
    && PrefixLen(s, ScoreBelow(start, !ExcludeStart(options))) == 0
    && (if ExcludeEnd(options) then end < 0 else end <= 0)
  }

  /** GetByScoreRange as written: the intended result, or the header's entry alone when it leaks. */
  function ScoreRangeAsWritten<V>(s: seq<Entry<V>>, header: Entry<V>, start: int, end: int, options: Option<RangeOptions>)
    : (r: seq<Entry<V>>)
  {
    ScoreRange(s, start, end, options) + if HeaderLeaks(s, start, end, options) then [header] else []
  }

  lemma TakeMembers<T>(s: seq<T>, n: int)
    ensures |Take(s, n)| <= |s| && (n >= 0 ==> |Take(s, n)| <= n)
    ensures forall i :: 0 <= i < |Take(s, n)| ==> Take(s, n)[i] == s[i]
  {
  }

  /** The interval GetByScoreRange selects from, after swapping when start > end. */
  predicate InScoreRange(x: int, start: int, end: int, options: Option<RangeOptions>)
  {
    if start > end then InInterval(x, end, start, ExcludeEnd(options), ExcludeStart(options))
    else InInterval(x, start, end, ExcludeStart(options), ExcludeEnd(options))
  }

  /**
   * GetByScoreRange against a reference definition: the filter of the
   * members by the interval, ascending or (start > end) descending, cut at
   * the limit.
   */
  lemma ScoreRangeFilter<V>(s: seq<Entry<V>>, start: int, end: int, options: Option<RangeOptions>)
    requires Sorted(s)
    ensures var exS, exE, limit := ExcludeStart(options), ExcludeEnd(options), LimitOf(options);
      ScoreRange(s, start, end, options) ==
        if start > end then Take(Reverse(Within(s, end, start, exE, exS)), limit)
        else Take(Within(s, start, end, exS, exE), limit)
  {
    if start > end {
      ScoreWindowWithin(s, end, start, ExcludeEnd(options), ExcludeStart(options));
    } else {
      ScoreWindowWithin(s, start, end, ExcludeStart(options), ExcludeEnd(options));
    }
  }

  /**
   * What GetByScoreRange promises: every reported entry is a member whose
   * score lies in the interval, and no more than the limit are reported.
   */
  lemma ScoreRangeSound<V>(s: seq<Entry<V>>, start: int, end: int, options: Option<RangeOptions>)
    requires Sorted(s)
    ensures var r := ScoreRange(s, start, end, options);
      && |r| <= LimitOf(options)
      && forall i :: 0 <= i < |r| ==> r[i] in s && InScoreRange(r[i].score, start, end, options)
  {
    ScoreRangeFilter(s, start, end, options);
    var limit := LimitOf(options);
    var w := if start > end then Within(s, end, start, ExcludeEnd(options), ExcludeStart(options))
             else Within(s, start, end, ExcludeStart(options), ExcludeEnd(options));
    assert forall i :: 0 <= i < |w| ==> w[i] in s && InScoreRange(w[i].score, start, end, options);
    if start > end {
      TakeMembers(Reverse(w), limit);
      forall i | 0 <= i < |w| ensures Reverse(w)[i] in w {
        ReverseAt(w, i);
      }
    } else {
      TakeMembers(w, limit);
    }
  }

  /**
   * The header leak shown on one input: with the single member ("a", 5),
   * GetByScoreRange(3, -1) reports the header, which is no member, where
   * nothing should be reported.
   */
  lemma ScoreRangeHeaderLeak()
    ensures var s, header := [Entry(5, "a", 0)], Entry(0, "", 0);
      && HeaderLeaks(s, 3, -1, None)
      && ScoreRangeAsWritten(s, header, 3, -1, None) == [header]
      && header !in s
      && ScoreRange(s, 3, -1, None) == []
  {
    var s := [Entry(5, "a", 0)];
    assert PrefixLen(s, ScoreBelow(3, true)) == 0;
    assert PrefixLen(s, ScoreBelow(-1, false)) == 0;
  }
}

/**
 * A two-member sorted set on which FindRank as written reports the wrong
 * rank: the member "" with score 1 on one level, and the member "b" with
 * score 2 on two. The search for "" stays at the header on the top level,
 * and the header's empty key passes the key comparison there.
 */
module RankExample {
  import opened Entries
  import opened SkipShape
  import opened SkipLinks
  import opened SkipSteps
  import opened SkipRanks

  /** The arena: the header, then "" (one level), then "b" (two levels). */
  function ExampleNodes(): (nodes: seq<Node<int>>)
    ensures |nodes| == 3
  {
    [ Node(0, "", 0, seq(MaxLevel, l => if l == 0 then 1 else if l == 1 then 2 else Nil),
           seq(MaxLevel, l => if l == 0 then 1 else if l == 1 then 2 else 0), Nil),
      Node(1, "", 0, [2], [1], Nil),
      Node(2, "b", 0, [Nil, Nil], [0, 0], 1) ]
  }

  lemma ExampleHeights()
    ensures Shape(ExampleNodes(), [1, 2]) && Heights(ExampleNodes(), [1, 2]) == [MaxLevel, 1, 2]
  {
  }

  lemma ExampleLevel(l: int)
    requires 0 <= l < 2
    ensures Shape(ExampleNodes(), [1, 2]) && LevelOk(ExampleNodes(), [1, 2], l)
  {
    ExampleHeights();
    var hs := [MaxLevel, 1, 2];
    assert NextUp(hs, l, 0) == l + 1;
    assert NextUp(hs, l, 2) == 3;
    if l == 0 {
      assert NextUp(hs, 0, 1) == 2;
    }
  }

  lemma ExampleEntries()
    ensures Shape(ExampleNodes(), [1, 2])
    ensures EntriesOf(ExampleNodes(), [1, 2]) == [Entry(1, "", 0), Entry(2, "b", 0)]
    ensures Sorted(EntriesOf(ExampleNodes(), [1, 2]))
    ensures DictOk(map["" := 1, "b" := 2], ExampleNodes(), [1, 2])
  {
    ExampleHeights();
    var s := EntriesOf(ExampleNodes(), [1, 2]);
    assert s == [Entry(1, "", 0), Entry(2, "b", 0)];
    assert Keys(s) == {"", "b"} by {
      assert s[0].key == "" && s[1].key == "b";
    }
  }

  /** The example satisfies the set's invariant, and the top level skips the member "". */
  lemma ExampleGood()
    ensures Good(ExampleNodes(), [1, 2], 2, 2, 2, map["" := 1, "b" := 2])
    ensures EntriesOf(ExampleNodes(), [1, 2]) == [Entry(1, "", 0), Entry(2, "b", 0)]
    ensures HeaderAtTop(ExampleNodes(), [1, 2], 2, 1)
  {
    var nodes, order := ExampleNodes(), [1, 2];
    ExampleHeights();
    ExampleEntries();
    assert LevelsUpTo(nodes, order, 2) by {
      forall l | 0 <= l < 2 ensures LevelOk(nodes, order, l) {
        ExampleLevel(l);
      }
    }
    assert NilFrom(nodes, 2) && HeaderOk(nodes) && HeightsBelow(nodes, order, 2) && BackwardOk(nodes, order);
    assert ListCore(nodes, order, 2, 2, 2);
    assert NextUp([MaxLevel, 1, 2], 1, 0) == 2;
  }

  /**
   * On the example, FindRank as written reports 0 for the member "", whose
   * rank is 1; comparing the node itself reports 1.
   */
  method FindRankExample() returns (asWritten: int, corrected: int)
    ensures RankOf(EntriesOf(ExampleNodes(), [1, 2]), "") == 1
    ensures asWritten == 0 && corrected == 1
  {
    ExampleGood();
    var dict := map["" := 1, "b" := 2];
    asWritten := FindRankWalk(ExampleNodes(), [1, 2], 2, 2, 2, dict, "", false);
    corrected := FindRankWalk(ExampleNodes(), [1, 2], 2, 2, 2, dict, "", true);
  }
}

/**
 * The package-level state of redis/redis.go as one object: the string map,
 * the expiry records, the live keys and the sorted sets, updated in place
 * by the commands. Each method is proved to do what the matching function
 * of module Redis says, on the abstract value `Abs()`.
 */
module KeySpaces {
  import opened Entries
  import opened StrConv
  import opened Constants
  import opened Text
  import opened SortedSets
  import R = Redis
  import S = Snapshot

  /**
   * The package variables of lines 19-22: the string map, the expiry
   * records, the live keys and the sorted sets by key, with the members of
   * each sorted set recorded beside it.
   */
  datatype Tables = Tables(strings: map<string, string>, ttl: map<string, int>, keys: set<string>,
                           zsets: map<string, SortedSet<int>>, ghost sets: map<string, seq<Entry<int>>>)

  /** Each live key holds one kind of value, every expiry record is a 64-bit `int`, and distinct keys hold distinct sorted sets. */
  ghost predicate Consistent(t: Tables)
  {
    && t.strings.Keys !! t.zsets.Keys
    && t.keys == t.strings.Keys + t.zsets.Keys
    && t.zsets.Keys == t.sets.Keys
    && (forall k :: k in t.ttl ==> IsInt(t.ttl[k]))
    && (forall k1, k2 :: k1 in t.zsets && k2 in t.zsets && k1 != k2 ==> t.zsets[k1] != t.zsets[k2])
  }

  /** The tables as a value, each sorted set replaced by its members. */
  ghost function View(t: Tables): R.Store
  {
    R.Store(t.strings, t.ttl, t.keys, t.sets)
  }

  /** The lines of ZRANGE's reply (lines 138-146), built left to right. */
  method FormatLines(found: seq<Entry<int>>, scores: bool) returns (output: string)
    ensures output == R.Lines(found, scores)
  {
    output := "";
    var i := 0;
    while i < |found|
      invariant 0 <= i <= |found|
      invariant output == R.Lines(found[..i], scores)
    {
      var line;
      if scores {
        line := "(1): " + found[i].key + " (2): " + Itoa(found[i].score) + "\n";
      } else {
        line := found[i].key + "\n";
      }
      assert line == R.Line(found[i], scores);
      output := output + line;
      R.LinesSnoc(found[..i], found[i], scores);
      assert found[..i + 1] == found[..i] + [found[i]];
      i := i + 1;
    }
    assert found[..i] == found;
  }

  /** The loop of ZADD (lines 111-115): each pair added with AddOrUpdate and payload 0. */
  method AddPairs(s: SortedSet<int>, values: seq<string>)
    requires s.Valid() && |values| % 2 == 0
    modifies s
    ensures s.Valid() && s.Elements() == R.AddPairs(old(s.Elements()), values)
  {
    ghost var start := s.Elements();
    var i := 0;
    while i < |values|
      invariant 0 <= i <= |values| && i % 2 == 0
      invariant s.Valid() && s.Elements() == R.AddPairs(start, values[..i])
    {
      R.EvenStep(i, |values|);
      var score := Atoi(values[i]).value;
      var _ := s.AddOrUpdate(values[i + 1], score, 0);
      R.AddPairsNext(start, values, i);
      i := i + 2;
    }
    assert values[..i] == values;
  }

  /** The first line of BackUp (lines 208-212), built key by key. */
  method WriteStrings(m: map<string, string>, order: seq<string>) returns (line: string)
    requires forall k :: k in order ==> k in m
    ensures line == S.StringsLine(m, order)
  {
    line := "";
    for i := 0 to |order|
      invariant forall x :: x in order[..i] ==> x in m
      invariant line == Terminated(S.StringFields(m, order[..i]), ",")
    {
      var k := order[i];
      line := line + k + ":" + m[k] + ",";
      S.StringFieldsNext(m, order, i);
      S.AppendField(S.StringFields(m, order[..i]), k, m[k]);
    }
    assert order[..|order|] == order;
  }

  /** The members of one set on BackUp's second line (lines 218-220): `score$member||` each. */
  method WriteItems(elements: seq<Entry<int>>) returns (items: string)
    ensures items == Terminated(S.Items(elements), "||")
  {
    items := "";
    for j := 0 to |elements|
      invariant items == Terminated(S.Items(elements[..j]), "||")
    {
      var e := elements[j];
      items := items + Itoa(e.score) + "$" + e.key + "||";
      S.ItemsNext(elements, j);
    }
    assert elements[..|elements|] == elements;
  }

  /**
   * The inner loop of Restore (lines 262-269): the score and member of
   * every non-empty item, or None where an item has no `$` and Go panics.
   */
  method ReadPairs(values: seq<string>) returns (temp: Option<seq<string>>)
    ensures temp == S.ItemPairs(values)
  {
    var pairs := [];
    for j := 0 to |values|
      invariant S.ItemPairs(values[..j]) == Some(pairs)
    {
      var setV := values[j];
      assert values[..j + 1][..j] == values[..j];
      if setV != "" {
        var splitted := Split(setV, "$");
        if |splitted| < 2 {
          FindChar(setV, '$');
          return None;
        }
        pairs := pairs + [splitted[0], splitted[1]];
      }
    }
    assert values[..|values|] == values;
    temp := Some(pairs);
  }

  /** Storing v under k brings no value into a map but v. */
  lemma ValuesUpdate<K, V>(m: map<K, V>, k: K, v: V)
    ensures m[k := v].Values <= m.Values + {v}
  {
  }

  /** Putting a fresh-keyed sorted set into consistent tables keeps them consistent, and the view is R.PutSet's. */
  lemma PutTables(t: Tables, key: string, z: SortedSet<int>, e: seq<Entry<int>>)
    requires Consistent(t) && key !in t.strings
    requires forall k :: k in t.zsets && k != key ==> t.zsets[k] != z
    ensures var t2 := t.(zsets := t.zsets[key := z], sets := t.sets[key := e], keys := t.keys + {key}, ttl := t.ttl[key := -1]);
      Consistent(t2) && View(t2) == R.PutSet(View(t), key, e)
  {
  }

  class KeySpace {
    var db: Tables

    /** The tables are consistent and every sorted set is well formed and holds its recorded members. */
    ghost predicate Valid()
      reads this, db.zsets.Values
    {
      && Consistent(db)
      && forall k :: k in db.zsets ==> db.zsets[k].Valid() && db.zsets[k].Elements() == db.sets[k]
    }

    /** The state as a value. */
    ghost function Abs(): R.Store
      reads this
    {
      View(db)
    }

    lemma AbsWf()
      requires Valid()
      ensures R.Wf(Abs())
    {
      forall k | k in db.sets ensures Sorted(db.sets[k]) && UniqueKeys(db.sets[k]) {
        db.zsets[k].ElementsOrdered();
      }
    }

    /** The state at start-up: nothing stored. */
    constructor ()
      ensures Valid() && Abs() == R.Empty
    {
      db := Tables(map[], map[], {}, map[], map[]);
    }

    /**
     * DEL (lines 177-192): every listed key that is live leaves all four
     * tables; the reply is "1" when one did, else "0".
     */
    method Del(ks: seq<string>) returns (reply: string)
      requires Valid()
      modifies this
      ensures Valid()
      ensures Abs() == R.Del(old(Abs()), ks).0
      ensures reply == R.DelReply(R.Del(old(Abs()), ks).1)
      ensures db.zsets.Values <= old(db.zsets.Values)
    {
      hide SortedSet.Valid, SortedSet.Elements;
      var flag := false;
      var i := 0;
      while i < |ks|
        invariant 0 <= i <= |ks|
        invariant Valid()
        invariant (Abs(), flag) == R.Del(old(Abs()), ks[..i])
        invariant db.zsets.Values <= old(db.zsets.Values)
      {
        var found := DelKey(ks[i]);
        flag := flag || found;
        assert ks[..i + 1][..i] == ks[..i];
        i := i + 1;
      }
      assert ks[..i] == ks;
      reply := if flag then "1" else "0";
    }

    /** One key of DEL (lines 180-189). */
    method DelKey(key: string) returns (found: bool)
      requires Valid()
      modifies this
      ensures Valid()
      ensures (Abs(), found) == R.DelOne(old(Abs()), key)
      ensures db.zsets.Values <= old(db.zsets.Values)
    {
      hide SortedSet.Valid, SortedSet.Elements;
      found := key in db.keys;
      if key in db.keys {
        var next := db.(keys := db.keys - {key}, ttl := db.ttl - {key});
        if key in next.strings {
          next := next.(strings := next.strings - {key});
        } else if key in next.zsets {
          next := next.(zsets := next.zsets - {key}, sets := next.sets - {key});
        }
        db := next;
      }
    }

    /**
     * Expire (lines 28-38, 61): the record becomes `timer`; `spawn` says
     * whether a decrementer would be started.
     */
    method Expire(key: string, timer: int) returns (reply: string, spawn: bool)
      requires Valid() && IsInt(timer)
      modifies this
      ensures Valid()
      ensures (Abs(), spawn) == R.Expire(old(Abs()), key, timer)
      ensures reply == R.Ok
      ensures db.zsets == old(db.zsets)
    {
      hide SortedSet.Valid, SortedSet.Elements;
      spawn := false;
      if key in db.ttl {
        if db.ttl[key] <= 0 {
          spawn := true;
        }
      } else {
        spawn := true;
      }
      db := db.(ttl := db.ttl[key := timer]);
      reply := R.Ok;
    }

    /**
     * One wake-up of the decrementer for `key` (lines 46-57); `running`
     * says whether it goes on.
     */
    method Tick(key: string) returns (running: bool)
      requires Valid()
      modifies this
      ensures Valid()
      ensures (Abs(), running) == R.Tick(old(Abs()), key)
    {
      hide SortedSet.Valid, SortedSet.Elements;
      running := false;
      if key in db.ttl {
        var value := db.ttl[key];
        if value == 1 {
          var _ := Del([key]);
        } else if value == -1 {
        } else {
          if value == MinInt {
            db := db.(ttl := db.ttl[key := MaxInt]);
          } else {
            db := db.(ttl := db.ttl[key := value - 1]);
          }
          running := true;
        }
      }
    }

    /**
     * SET (lines 64-95): DEL the key, then check the optional expiry clause,
     * then store the value.
     */
    method Set(command: seq<string>) returns (reply: string, spawn: bool)
      requires Valid() && |command| >= 3 && |command| != 4
      modifies this
      ensures Valid()
      ensures (Abs(), reply, spawn) == R.Set(old(Abs()), command)
      ensures db.zsets.Values <= old(db.zsets.Values)
    {
      hide SortedSet.Valid, SortedSet.Elements;
      var key := command[1];
      AbsWf();
      R.DelOneWithout(Abs(), key);
      var _ := Del([key]);
      assert Abs() == R.DelOne(old(Abs()), key).0 by {
        assert [key][..0] == [];
      }
      assert key !in db.zsets;
      var persist := true;
      spawn := false;
      if |command| > 3 {
        if command[3] == "EX" || command[3] == "ex" {
          var n := Atoi(command[4]);
          if n.ok {
            persist := false;
            var _, s := Expire(key, n.value);
            spawn := s;
          } else {
            reply := R.InvalidCommand;
            return;
          }
        } else if command[3] == "PX" || command[3] == "px" {
          var n := Atoi(command[4]);
          if n.ok {
            persist := false;
            var _, s := Expire(key, n.value);
            spawn := s;
          } else {
            reply := R.InvalidCommand;
            return;
          }
        } else {
          reply := R.InvalidCommand;
          return;
        }
      }
      StoreString(key, command[2], persist);
      reply := R.Ok;
    }

    /** The tail of SET (lines 89-93): the key is live and holds the string. */
    method StoreString(key: string, value: string, persist: bool)
      requires Valid() && key !in db.zsets
      modifies this
      ensures Valid()
      ensures Abs() == R.Stored(old(Abs()), key, value, persist)
      ensures db.zsets == old(db.zsets)
    {
      hide SortedSet.Valid, SortedSet.Elements;
      var next := db.(keys := db.keys + {key}, strings := db.strings[key := value]);
      if persist {
        next := next.(ttl := next.ttl[key := -1]);
      }
      db := next;
    }

    /** GET (lines 164-174). */
    method Get(key: string) returns (reply: string)
      requires Valid()
      ensures reply == R.Get(Abs(), key)
    {
      reply := R.NilReply;
      if key in db.keys {
        reply := ErrorConstants(9);
      }
      if key in db.strings {
        reply := db.strings[key];
      }
    }

    /** TTL (lines 194-200). */
    method Ttl(key: string) returns (reply: string)
      requires Valid()
      ensures reply == R.Ttl(Abs(), key)
    {
      if key in db.ttl {
        reply := Itoa(db.ttl[key]);
      } else {
        reply := "-2";
      }
    }

    /** The sorted set at `key` hides its member "" from FindRank. */
    ghost predicate Hides(key: string)
      reads this, db.zsets.Values
      requires Valid()
    {
      key in db.zsets && db.zsets[key].HidesEmpty()
    }

    /** ZRANK (lines 152-162), with FindRank as written. */
    method Zrank(key: string, member: string) returns (reply: string)
      requires Valid()
      ensures reply == R.Zrank(Abs(), key, member, Hides(key))
    {
      reply := R.NilReply;
      if key in db.keys {
        reply := ErrorConstants(9);
      }
      if key in db.zsets {
        var rank := db.zsets[key].FindRank(member);
        R.SmallNumerals();
        reply := Itoa(rank);
      }
    }

    /**
     * ZRANGE (lines 122-150): the members GetByRankRange reports, one per
     * line, with their scores when asked, then "ok".
     */
    method Zrange(key: string, args: seq<string>) returns (reply: string)
      requires Valid() && |args| >= 2
      ensures reply == R.Zrange(Abs(), key, args)
    {
      var start := Atoi(args[0]).value;
      var stop := Atoi(args[1]).value;
      var withscores := "false";
      if |args| > 2 {
        withscores := args[2];
      }
      reply := R.NilReply;
      if key in db.keys {
        reply := ErrorConstants(9);
      }
      if key in db.zsets {
        var found := db.zsets[key].ReadRankRange(start, stop);
        var output := FormatLines(found, ToLower(withscores) == "withscores");
        reply := output + R.Ok;
      }
    }

    /**
     * ZADD (lines 97-120): a string under the key is deleted and a fresh set
     * started, an existing set is reused, and the pairs are added to it in
     * order; the key then holds the set with the record -1.
     */
    method Zadd(key: string, values: seq<string>) returns (reply: string)
      requires Valid() && |values| % 2 == 0
      modifies this, db.zsets.Values
      ensures Valid()
      ensures Abs() == R.Zadd(old(Abs()), key, values)
      ensures reply == R.Ok
      ensures forall z :: z in db.zsets.Values ==> z in old(db.zsets.Values) || fresh(z)
    {
      hide SortedSet.Valid, SortedSet.Elements;
      var tempSet := TakeSet(key);
      AddPairs(tempSet, values);
      PutSet(key, tempSet);
      reply := R.Ok;
    }

    /** Valid, except that the set under `key` may have moved on from its recorded members. */
    ghost predicate ValidExcept(key: string)
      reads this, db.zsets.Values
    {
      && Consistent(db)
      && forall k :: k in db.zsets && k != key ==> db.zsets[k].Valid() && db.zsets[k].Elements() == db.sets[k]
    }

    /** Lines 99-109: the set ZADD adds to. */
    method TakeSet(key: string) returns (s: SortedSet<int>)
      requires Valid()
      modifies this
      ensures Valid() && s.Valid() && key !in db.strings
      ensures (Abs(), s.Elements()) == R.ZaddBase(old(Abs()), key)
      ensures forall k :: k in db.zsets && k != key ==> db.zsets[k] != s
      ensures fresh(s) || s in old(db.zsets.Values)
      ensures db.zsets.Values <= old(db.zsets.Values)
    {
      hide SortedSet.Valid, SortedSet.Elements;
      AbsWf();
      R.ZaddBaseEffect(Abs(), key);
      R.DelOneWithout(Abs(), key);
      if key in db.keys {
        if key in db.strings {
          var _ := Del([key]);
          assert [key][..0] == [];
          s := new SortedSet();
        } else {
          s := db.zsets[key];
        }
      } else {
        s := new SortedSet();
      }
    }

    /** Lines 116-118: the key holds the set, with the record -1. */
    method PutSet(key: string, s: SortedSet<int>)
      requires ValidExcept(key) && s.Valid() && key !in db.strings
      requires forall k :: k in db.zsets && k != key ==> db.zsets[k] != s
      modifies this
      ensures Valid()
      ensures Abs() == R.PutSet(old(Abs()), key, s.Elements())
      ensures db.zsets.Values <= old(db.zsets.Values) + {s}
    {
      hide SortedSet.Valid, SortedSet.Elements;
      ValuesUpdate(db.zsets, key, s);
      var t := db.(zsets := db.zsets[key := s], sets := db.sets[key := s.Elements()],
                   keys := db.keys + {key}, ttl := db.ttl[key := -1]);
      PutTables(db, key, s, s.Elements());
      hide Consistent, View;
      db := t;
      forall k | k in db.zsets ensures db.zsets[k].Valid() && db.zsets[k].Elements() == db.sets[k] {
        if k != key {
          assert db.zsets[k] == old(db.zsets[k]) && db.sets[k] == old(db.sets[k]);
        }
      }
    }

    /**
     * BackUp (lines 202-227) without the file: the two lines it writes.
     * Go's map iteration order is the argument: `order1` visits the string
     * keys and `order2` the sorted-set keys.
     */
    method BackUp(order1: seq<string>, order2: seq<string>) returns (line1: string, line2: string)
      requires Valid()
      requires S.Enumerates(order1, db.strings.Keys) && S.Enumerates(order2, db.zsets.Keys)
      ensures line1 == S.StringsLine(Abs().strings, order1)
      ensures line2 == S.SetsLine(Abs().sets, order2)
    {
      hide SortedSet.Valid, SortedSet.Elements;
      line1 := WriteStrings(db.strings, order1);
      line2 := "";
      assert forall x :: x in order2 ==> x in db.sets;
      for i := 0 to |order2|
        invariant forall x :: x in order2[..i] ==> x in db.sets
        invariant line2 == Terminated(S.SetFields(db.sets, order2[..i]), ",")
      {
        var k := order2[i];
        var items := WriteSet(k);
        line2 := line2 + k + ":" + items + ",";
        S.SetFieldsNext(db.sets, order2, i);
        S.AppendField(S.SetFields(db.sets, order2[..i]), k, items);
      }
      assert order2[..|order2|] == order2;
    }

    /** The members of the set under `key` as BackUp lists them (lines 216-220). */
    method WriteSet(key: string) returns (items: string)
      requires Valid() && key in db.zsets
      ensures items == Terminated(S.Items(Abs().sets[key]), "||")
    {
      var elements := db.zsets[key].ReadRankRange(0, -1);
      S.WholeRange(db.sets[key]);
      items := WriteItems(elements);
    }

    /**
     * Restore (lines 231-277) on the text of the file: the fields of the
     * first line are replayed as SET and those of the second as ZADD. `ok`
     * is false where Go indexes past the end of a split and panics; the
     * state is then what the fields before the bad one made of it.
     */
    method Restore(text: string) returns (ok: bool)
      requires Valid()
      modifies this, db.zsets.Values
      ensures Valid()
      ensures (Abs(), ok) == S.Restore(old(Abs()), text)
    {
      var (map1, map2) := S.ReadLines(text);
      ok := RestoreStrings(Split(map1, ","));
      if ok {
        ok := RestoreSets(Split(map2, ","));
      }
    }

    /** Restore's first loop (lines 243-253). */
    method RestoreStrings(map1Data: seq<string>) returns (ok: bool)
      requires Valid()
      modifies this
      ensures Valid()
      ensures (Abs(), ok) == S.RestoreStrings(old(Abs()), map1Data)
      ensures db.zsets.Values <= old(db.zsets.Values)
    {
      hide SortedSet.Valid, SortedSet.Elements;
      var i := 0;
      while i < |map1Data|
        invariant 0 <= i <= |map1Data|
        invariant Valid()
        invariant S.RestoreStrings(old(Abs()), map1Data) == S.RestoreStrings(Abs(), map1Data[i..])
        invariant db.zsets.Values <= old(db.zsets.Values)
      {
        var m := map1Data[i];
        if m == "" {
          break;
        }
        var splitted := Split(m, ":");
        if |splitted| < 2 {
          return false;
        }
        var _, _ := Set(["set", splitted[0], splitted[1]]);
        assert map1Data[i..][1..] == map1Data[i + 1..];
        i := i + 1;
      }
      ok := true;
    }

    /** Restore's second loop (lines 254-272). */
    method RestoreSets(map2Data: seq<string>) returns (ok: bool)
      requires Valid()
      modifies this, db.zsets.Values
      ensures Valid()
      ensures (Abs(), ok) == S.RestoreSets(old(Abs()), map2Data)
    {
      hide SortedSet.Valid, SortedSet.Elements;
      var i := 0;
      while i < |map2Data|
        invariant 0 <= i <= |map2Data|
        invariant Valid()
        invariant S.RestoreSets(old(Abs()), map2Data) == S.RestoreSets(Abs(), map2Data[i..])
        invariant forall z :: z in db.zsets.Values ==> z in old(db.zsets.Values) || fresh(z)
      {
        var m := map2Data[i];
        if m == "" {
          break;
        }
        var splitted := Split(m, ":");
        if |splitted| < 2 {
          return false;
        }
        var temp := ReadPairs(Split(splitted[1], "||"));
        if temp.None? {
          return false;
        }
        var _ := Zadd(splitted[0], temp.value);
        assert map2Data[i..][1..] == map2Data[i + 1..];
        i := i + 1;
      }
      ok := true;
    }
  }
}

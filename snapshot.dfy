/**
 * The backup file of redis/redis.go. BackUp writes two lines: the strings
 * as `key:value,` per key, then the sorted sets as `key:` followed by
 * `score$member||` per member in rank order and a closing `,`. Restore
 * reads the two lines back, splits them at the same separators and replays
 * every field as a SET or a ZADD command. Go visits a map in an unspecified
 * order, so the encoders take the order of the keys as an argument.
 */
module Snapshot {
  import opened Entries
  import opened StrConv
  import opened Text
  import R = Redis

  /** Text that holds none of the format's separators and no line break. */
  predicate Plain(s: string)
  {
    ':' !in s && ',' !in s && '$' !in s && '|' !in s && '\n' !in s
  }

  /** `order` visits every key of the set exactly once. */
  ghost predicate Enumerates(order: seq<string>, keys: set<string>)
  {
    && (forall i, j :: 0 <= i < j < |order| ==> order[i] != order[j])
    && (forall k :: k in order <==> k in keys)
  }

  // ---------------------------------------------------------------------------
  // Writing: BackUp (lines 208-222)

  /** The fields of the first line, `key:value` for each key in the order given. */
  function StringFields(m: map<string, string>, order: seq<string>): seq<string>
    requires forall k :: k in order ==> k in m
  {
    if order == [] then [] else [order[0] + ":" + m[order[0]]] + StringFields(m, order[1..])
  }

  /** The first line: every field closed by a comma. */
  function StringsLine(m: map<string, string>, order: seq<string>): string
    requires forall k :: k in order ==> k in m
  {
    Terminated(StringFields(m, order), ",")
  }

  /** One member of a sorted set: its score in decimal, `$`, the member. */
  function Item(e: Entry<int>): string
  {
    Itoa(e.score) + "$" + e.key
  }

  function Items(es: seq<Entry<int>>): seq<string>
  {
    if es == [] then [] else [Item(es[0])] + Items(es[1..])
  }

  /** The fields of the second line: `key:` and the set's items, each closed by `||`. */
  function SetFields(sets: map<string, seq<Entry<int>>>, order: seq<string>): seq<string>
    requires forall k :: k in order ==> k in sets
  {
    if order == [] then []
    else [order[0] + ":" + Terminated(Items(sets[order[0]]), "||")] + SetFields(sets, order[1..])
  }

  /** The second line: every field closed by a comma. */
  function SetsLine(sets: map<string, seq<Entry<int>>>, order: seq<string>): string
    requires forall k :: k in order ==> k in sets
  {
    Terminated(SetFields(sets, order), ",")
  }

  lemma {:induction false} StringFieldsSnoc(m: map<string, string>, order: seq<string>, k: string)
    requires (forall x :: x in order ==> x in m) && k in m
    ensures StringFields(m, order + [k]) == StringFields(m, order) + [k + ":" + m[k]]
    decreases |order|
  {
    if order != [] {
      assert (order + [k])[1..] == order[1..] + [k];
      StringFieldsSnoc(m, order[1..], k);
    }
  }

  lemma {:induction false} SetFieldsSnoc(sets: map<string, seq<Entry<int>>>, order: seq<string>, k: string)
    requires (forall x :: x in order ==> x in sets) && k in sets
    ensures SetFields(sets, order + [k]) == SetFields(sets, order) + [k + ":" + Terminated(Items(sets[k]), "||")]
    decreases |order|
  {
    if order != [] {
      assert (order + [k])[1..] == order[1..] + [k];
      SetFieldsSnoc(sets, order[1..], k);
    }
  }

  /** The first-line fields of one more key of the order. */
  lemma StringFieldsNext(m: map<string, string>, order: seq<string>, i: int)
    requires (forall x :: x in order ==> x in m) && 0 <= i < |order|
    ensures forall x :: x in order[..i + 1] ==> x in m
    ensures StringFields(m, order[..i + 1]) == StringFields(m, order[..i]) + [order[i] + ":" + m[order[i]]]
  {
    assert order[..i + 1] == order[..i] + [order[i]];
    assert order[i] in order;
    StringFieldsSnoc(m, order[..i], order[i]);
  }

  /** One more member on the second line: score, `$`, member, `||`. */
  lemma ItemsNext(es: seq<Entry<int>>, j: int)
    requires 0 <= j < |es|
    ensures Terminated(Items(es[..j + 1]), "||") == Terminated(Items(es[..j]), "||") + Itoa(es[j].score) + "$" + es[j].key + "||"
  {
    hide Terminated, Itoa;
    assert es[..j + 1] == es[..j] + [es[j]];
    ItemsSnoc(es[..j], es[j]);
    hide Items;
    TerminatedSnoc(Items(es[..j]), Item(es[j]), "||");
    var t := Terminated(Items(es[..j]), "||");
    assert t + Item(es[j]) + "||" == t + Itoa(es[j].score) + "$" + es[j].key + "||";
  }

  /** The fields of one more key of the order. */
  lemma SetFieldsNext(sets: map<string, seq<Entry<int>>>, order: seq<string>, i: int)
    requires (forall x :: x in order ==> x in sets) && 0 <= i < |order|
    ensures forall x :: x in order[..i + 1] ==> x in sets
    ensures SetFields(sets, order[..i + 1]) == SetFields(sets, order[..i]) + [order[i] + ":" + Terminated(Items(sets[order[i]]), "||")]
  {
    assert order[..i + 1] == order[..i] + [order[i]];
    assert order[i] in order;
    SetFieldsSnoc(sets, order[..i], order[i]);
  }

  /** A line grows by one field the way BackUp appends it: key, colon, value, comma. */
  lemma AppendField(fields: seq<string>, k: string, v: string)
    ensures Terminated(fields + [k + ":" + v], ",") == Terminated(fields, ",") + k + ":" + v + ","
  {
    TerminatedSnoc(fields, k + ":" + v, ",");
    var t := Terminated(fields, ",");
    assert t + (k + ":" + v) + "," == t + k + ":" + v + ",";
  }

  /** The file: the first line, a line break, the second line. */
  function File(line1: string, line2: string): string
  {
    line1 + "\n" + line2
  }

  /** BackUp lists a set with GetByRankRange(0, -1): rank 0 resolves to the first member and -1 to the last. */
  lemma WholeRange(s: seq<Entry<int>>)
    ensures RankRange(s, 0, -1) == s
  {
  }

  // ---------------------------------------------------------------------------
  // Reading: Restore (lines 231-272)

  /**
   * A line as bufio.Scanner hands it over: the text up to the line break,
   * without one carriage return at its end.
   */
  function DropCR(line: string): (r: string)
    ensures r == line || (line == r + "\r")
    ensures |line| > 0 && line[|line| - 1] == '\r' ==> line == r + "\r"
    ensures !(|line| > 0 && line[|line| - 1] == '\r') ==> r == line
  {
    if |line| > 0 && line[|line| - 1] == '\r' then line[..|line| - 1] else line
  }

  /** The two lines Restore scans; a line the file does not have reads as "". */
  function ReadLines(text: string): (string, string)
  {
    var lines := Split(text, "\n");
    (DropCR(lines[0]), if |lines| > 1 then DropCR(lines[1]) else "")
  }

  /**
   * A field of the first line: the key before the first colon and the
   * value up to the second; None for a field without a colon, where Go
   * indexes past the end of the split and panics.
   */
  function StringField(m: string): (r: Option<(string, string)>)
    ensures r.Some? <==> ':' in m
  {
    var parts := Split(m, ":");
    FindChar(m, ':');
    if |parts| < 2 then None else Some((parts[0], parts[1]))
  }

  /**
   * Restore's first loop: SET key value for each field, stopping at the
   * first empty field. The flag is false when a field had no colon.
   */
  function RestoreStrings(st: R.Store, fields: seq<string>): (r: (R.Store, bool))
    decreases |fields|
  {
    if fields == [] || fields[0] == "" then (st, true)
    else match StringField(fields[0])
      case None => (st, false)
      case Some((k, v)) => RestoreStrings(R.Set(st, ["set", k, v]).0, fields[1..])
  }

  /**
   * The ZADD arguments of a set field's items: for each non-empty item the
   * text before its first `$` and the text up to the second; None when a
   * non-empty item has no `$`.
   */
  function ItemPairs(items: seq<string>): (r: Option<seq<string>>)
    ensures r.Some? ==> |r.value| % 2 == 0
    ensures r.Some? <==> forall i :: 0 <= i < |items| && items[i] != "" ==> '$' in items[i]
    decreases |items|
  {
    if items == [] then Some([])
    else
      var n := |items|;
      var init := ItemPairs(items[..n - 1]);
      assert forall i :: 0 <= i < n - 1 ==> items[i] == items[..n - 1][i];
      var parts := Split(items[n - 1], "$");
      FindChar(items[n - 1], '$');
      if items[n - 1] == "" then init
      else if |parts| < 2 || init.None? then None
      else Some(init.value + [parts[0], parts[1]])
  }

  /** A field of the second line: the key and the ZADD arguments of its items. */
  function SetField(m: string): (r: Option<(string, seq<string>)>)
    ensures r.Some? ==> |r.value.1| % 2 == 0
    ensures ':' !in m ==> r.None?
  {
    var parts := Split(m, ":");
    FindChar(m, ':');
    if |parts| < 2 then None
    else match ItemPairs(Split(parts[1], "||"))
      case None => None
      case Some(pairs) => Some((parts[0], pairs))
  }

  /** Restore's second loop: ZADD key pairs for each field, stopping at the first empty field. */
  function RestoreSets(st: R.Store, fields: seq<string>): (r: (R.Store, bool))
    decreases |fields|
  {
    if fields == [] || fields[0] == "" then (st, true)
    else match SetField(fields[0])
      case None => (st, false)
      case Some((k, pairs)) => RestoreSets(R.Zadd(st, k, pairs), fields[1..])
  }

  /**
   * Restore: the strings of the first line, then the sets of the second.
   * The flag is false when Go would have panicked; the state is then the
   * one reached by the fields before the bad one.
   */
  function Restore(st: R.Store, text: string): (R.Store, bool)
  {
    var (map1, map2) := ReadLines(text);
    var (loaded, ok) := RestoreStrings(st, Split(map1, ","));
    if !ok then (loaded, false) else RestoreSets(loaded, Split(map2, ","))
  }

  // ---------------------------------------------------------------------------
  // Restore keeps the key space well formed

  lemma {:induction false} RestoreStringsWf(st: R.Store, fields: seq<string>)
    requires R.Wf(st)
    ensures R.Wf(RestoreStrings(st, fields).0)
    decreases |fields|
  {
    if fields != [] && fields[0] != "" && StringField(fields[0]).Some? {
      var (k, v) := StringField(fields[0]).value;
      R.SetThenGet(st, ["set", k, v]);
      RestoreStringsWf(R.Set(st, ["set", k, v]).0, fields[1..]);
    }
  }

  lemma {:induction false} RestoreSetsWf(st: R.Store, fields: seq<string>)
    requires R.Wf(st)
    ensures R.Wf(RestoreSets(st, fields).0)
    decreases |fields|
  {
    if fields != [] && fields[0] != "" && SetField(fields[0]).Some? {
      var (k, pairs) := SetField(fields[0]).value;
      R.ZaddEffect(st, k, pairs);
      RestoreSetsWf(R.Zadd(st, k, pairs), fields[1..]);
    }
  }

  /** Whatever the file holds, Restore leaves a well-formed key space, also where it stops early. */
  lemma RestoreWf(st: R.Store, text: string)
    requires R.Wf(st)
    ensures R.Wf(Restore(st, text).0)
  {
    var (map1, map2) := ReadLines(text);
    RestoreStringsWf(st, Split(map1, ","));
    RestoreSetsWf(RestoreStrings(st, Split(map1, ",")).0, Split(map2, ","));
  }

  // ---------------------------------------------------------------------------
  // The round trip

  /**
   * What BackUp can write so that Restore reads it back: keys, values and
   * members without separators, scores in Go's int range, payloads 0 (the
   * only payload ZADD stores).
   */
  ghost predicate Encodable(st: R.Store)
  {
    && (forall k :: k in st.strings ==> Plain(k) && Plain(st.strings[k]))
    && (forall k :: k in st.sets ==> Plain(k) && EncodableSet(st.sets[k]))
  }

  ghost predicate EncodableSet(es: seq<Entry<int>>)
  {
    forall i :: 0 <= i < |es| ==> Plain(es[i].key) && MinInt <= es[i].score <= MaxInt && es[i].value == 0
  }

  /** The key space Restore rebuilds: the same strings and sets, every key live with the record -1. */
  function Reloaded(st: R.Store): R.Store
  {
    R.Store(st.strings, map k | k in st.keys :: -1, st.keys, st.sets)
  }

  /** The ZADD arguments that list a set: score in decimal, then member, for each member in order. */
  function ZaddArgs(es: seq<Entry<int>>): (args: seq<string>)
    ensures |args| == 2 * |es| && |args| % 2 == 0
  {
    if es == [] then [] else [Itoa(es[0].score), es[0].key] + ZaddArgs(es[1..])
  }

  lemma {:induction false} ZaddArgsSnoc(es: seq<Entry<int>>, e: Entry<int>)
    ensures ZaddArgs(es + [e]) == ZaddArgs(es) + [Itoa(e.score), e.key]
    decreases |es|
  {
    if es != [] {
      assert (es + [e])[1..] == es[1..] + [e];
      ZaddArgsSnoc(es[1..], e);
    }
  }

  /** The decimal text of a score holds no separator. */
  lemma ItoaPlain(n: int)
    ensures Plain(Itoa(n)) && Itoa(n) != ""
  {
    var s := Itoa(n);
    assert forall c :: c in s ==> IsDigit(c) || c == '-';
  }

  /**
   * Replaying a set's own members, in order and with their scores, into an
   * empty set gives the same set back: each one sorts after all before it.
   */
  lemma {:induction false} ReplaySet(es: seq<Entry<int>>)
    requires Sorted(es) && UniqueKeys(es) && EncodableSet(es)
    ensures R.AddPairs([], ZaddArgs(es)) == es
    decreases |es|
  {
    if es != [] {
      var init := es[..|es| - 1];
      ReplayStep(es);
      ReplaySet(init);
      AppendLast(es);
    }
  }

  /** ZADD with a set's arguments is ZADD with all but the last pair, then the last member. */
  lemma ReplayStep(es: seq<Entry<int>>)
    requires es != [] && MinInt <= es[|es| - 1].score <= MaxInt
    ensures var e := es[|es| - 1];
      R.AddPairs([], ZaddArgs(es)) == Upsert(R.AddPairs([], ZaddArgs(es[..|es| - 1])), e.key, e.score, 0)
  {
    var n := |es|;
    var init, e := es[..n - 1], es[n - 1];
    ZaddArgsLast(es);
    hide R.AddPairs, Upsert, ZaddArgs, Itoa, Atoi;
    AddPairsSnoc(ZaddArgs(init), Itoa(e.score), e.key);
    AtoiItoa(e.score);
  }

  lemma ZaddArgsLast(es: seq<Entry<int>>)
    requires es != []
    ensures var e := es[|es| - 1]; ZaddArgs(es) == ZaddArgs(es[..|es| - 1]) + [Itoa(e.score), e.key]
  {
    hide ZaddArgs, Itoa;
    var init := es[..|es| - 1];
    assert es == init + [es[|es| - 1]];
    ZaddArgsSnoc(init, es[|es| - 1]);
  }

  /** One more score/member pair at the end of a ZADD. */
  lemma AddPairsSnoc(values: seq<string>, score: string, member: string)
    requires |values| % 2 == 0
    ensures R.AddPairs([], values + [score, member]) == Upsert(R.AddPairs([], values), member, Atoi(score).value, 0)
  {
    var w := values + [score, member];
    assert w[..|w| - 2] == values;
  }

  /** The last member of a sorted set with distinct members goes back at the end. */
  lemma AppendLast(es: seq<Entry<int>>)
    requires es != [] && Sorted(es) && UniqueKeys(es) && es[|es| - 1].value == 0
    ensures var e := es[|es| - 1]; Upsert(es[..|es| - 1], e.key, e.score, 0) == es
  {
    var n := |es|;
    var init, e := es[..n - 1], es[n - 1];
    assert e.key !in Keys(init);
    forall i | 0 <= i < |init| ensures BelowPair(e.score, e.key)(init[i].score, init[i].key) {
      assert Precedes(es[i], es[n - 1]);
    }
    assert PrefixLen(init, BelowPair(e.score, e.key)) == |init|;
    assert init[..|init|] == init;
  }

  /** The items of an encodable set come back as its ZADD arguments; the empty piece after the last `||` adds nothing. */
  lemma ItemPairsOfItems(es: seq<Entry<int>>)
    requires EncodableSet(es)
    ensures ItemPairs(Items(es) + [""]) == Some(ZaddArgs(es))
  {
    var items := Items(es) + [""];
    assert items[..|items| - 1] == Items(es);
    ItemPairsItems(es);
  }

  lemma {:induction false} ItemPairsItems(es: seq<Entry<int>>)
    requires EncodableSet(es)
    ensures ItemPairs(Items(es)) == Some(ZaddArgs(es))
    decreases |es|
  {
    if es != [] {
      var n := |es|;
      var init, e := es[..n - 1], es[n - 1];
      assert es == init + [e];
      ItemsSnoc(init, e);
      ZaddArgsSnoc(init, e);
      ItemPairsItems(init);
      ItoaPlain(e.score);
      SplitPair(Itoa(e.score), "$", e.key);
      var items := Items(es);
      assert items[..|items| - 1] == Items(init);
    }
  }

  lemma {:induction false} ItemsSnoc(es: seq<Entry<int>>, e: Entry<int>)
    ensures Items(es + [e]) == Items(es) + [Item(e)]
    decreases |es|
  {
    if es != [] {
      hide Item;
      assert (es + [e])[1..] == es[1..] + [e];
      ItemsSnoc(es[1..], e);
    }
  }

  lemma {:induction false} ItemsPlain(es: seq<Entry<int>>, c: char)
    requires EncodableSet(es) && c in ":,|\n"
    ensures forall i :: 0 <= i < |Items(es)| ==> c !in Items(es)[i]
    decreases |es|
  {
    if es != [] {
      ItoaPlain(es[0].score);
      ItemsPlain(es[1..], c);
      assert Items(es) == [Item(es[0])] + Items(es[1..]);
    }
  }

  /** A set's field reads back as its key and its ZADD arguments. */
  lemma SetFieldOf(k: string, es: seq<Entry<int>>)
    requires Plain(k) && EncodableSet(es)
    ensures SetField(k + ":" + Terminated(Items(es), "||")) == Some((k, ZaddArgs(es)))
  {
    var body := Terminated(Items(es), "||");
    ItemsPlain(es, ':');
    ItemsPlain(es, '|');
    TerminatedAvoids(Items(es), "||", ':');
    SplitPair(k, ":", body);
    SplitTerminated(Items(es), "||");
    ItemPairsOfItems(es);
  }

  /** The key space holding exactly the strings of m under the keys K, with the record -1. */
  function Loaded(m: map<string, string>, K: set<string>): R.Store
    requires K <= m.Keys
  {
    R.Store(map k | k in K :: m[k], map k | k in K :: -1, K, map[])
  }

  lemma {:induction false} RestoreStringsRun(m: map<string, string>, K: set<string>, order: seq<string>)
    requires K <= m.Keys && Enumerates(order, m.Keys - K)
    requires forall k :: k in m ==> Plain(k) && Plain(m[k])
    ensures RestoreStrings(Loaded(m, K), StringFields(m, order) + [""]) == (Loaded(m, m.Keys), true)
    decreases |order|
  {
    if order == [] {
      EnumeratesNone(m.Keys, K);
    } else {
      var k := order[0];
      assert k in order;
      assert forall x :: x in order[1..] ==> x in order;
      var f := k + ":" + m[k];
      var rest := StringFields(m, order[1..]) + [""];
      assert StringFields(m, order) + [""] == [f] + rest;
      StringFieldOf(k, m[k]);
      LoadedStep(m, K, k);
      EnumeratesTail(order, m.Keys - K);
      assert m.Keys - K - {k} == m.Keys - (K + {k});
      hide R.AddPairs, Upsert, R.Set, StringField, Split, Loaded, StringFields, Enumerates;
      RestoreStringsCons(Loaded(m, K), f, rest, k, m[k]);
      RestoreStringsRun(m, K + {k}, order[1..]);
    }
  }

  /** A readable field at the front of the first line: its SET, then the rest. */
  lemma RestoreStringsCons(st: R.Store, f: string, rest: seq<string>, k: string, v: string)
    requires StringField(f) == Some((k, v))
    ensures RestoreStrings(st, [f] + rest) == RestoreStrings(R.Set(st, ["set", k, v]).0, rest)
  {
    hide R.Set, StringField;
    assert f != "" by {
      assert ':' !in "";
    }
    assert ([f] + rest)[1..] == rest;
  }

  /** A field of the first line reads back as its key and value. */
  lemma StringFieldOf(k: string, v: string)
    requires Plain(k) && Plain(v)
    ensures StringField(k + ":" + v) == Some((k, v))
  {
    SplitPair(k, ":", v);
  }

  /** SET of one more key of m, with its own value. */
  lemma LoadedStep(m: map<string, string>, K: set<string>, k: string)
    requires K <= m.Keys && k in m && k !in K
    ensures R.Set(Loaded(m, K), ["set", k, m[k]]).0 == Loaded(m, K + {k})
  {
    var st := Loaded(m, K);
    assert R.DelOne(st, k).0 == st;
    var r := R.Set(st, ["set", k, m[k]]).0;
    assert r == R.Stored(st, k, m[k], true);
    assert r.strings == Loaded(m, K + {k}).strings;
    assert r.ttl == Loaded(m, K + {k}).ttl;
  }

  /** An order that visits the keys of a set that is all of K's superset's keys but K's: K is all of them. */
  lemma EnumeratesNone(keys: set<string>, K: set<string>)
    requires K <= keys && Enumerates([], keys - K)
    ensures K == keys
  {
    forall k | k in keys ensures k in K {
      assert k !in [];
    }
  }

  /** After its first key, an order enumerates the rest. */
  lemma EnumeratesTail(order: seq<string>, keys: set<string>)
    requires order != [] && Enumerates(order, keys)
    ensures Enumerates(order[1..], keys - {order[0]})
  {
    forall x ensures x in order[1..] <==> x in keys - {order[0]} {
      if x in order[1..] {
        var j :| 1 <= j < |order| && order[j] == x;
        assert order[0] != order[j];
      }
      if x in keys - {order[0]} {
        assert x in order;
        var j :| 0 <= j < |order| && order[j] == x;
        assert order[1..][j - 1] == x;
      }
    }
  }

  /** The key space after the strings of st and the sets under K have been restored. */
  function Staged(st: R.Store, K: set<string>): R.Store
    requires K <= st.sets.Keys
  {
    R.Store(st.strings, map k | k in st.strings.Keys + K :: -1, st.strings.Keys + K, map k | k in K :: st.sets[k])
  }

  lemma {:induction false} RestoreSetsRun(st: R.Store, K: set<string>, order: seq<string>)
    requires R.Wf(st) && Encodable(st)
    requires K <= st.sets.Keys && Enumerates(order, st.sets.Keys - K)
    ensures RestoreSets(Staged(st, K), SetFields(st.sets, order) + [""]) == (Staged(st, st.sets.Keys), true)
    decreases |order|
  {
    if order == [] {
      EnumeratesNone(st.sets.Keys, K);
    } else {
      var k := order[0];
      RestoreSetsFirst(st, K, order);
      EnumeratesTail(order, st.sets.Keys - K);
      assert st.sets.Keys - K - {k} == st.sets.Keys - (K + {k});
      RestoreSetsRun(st, K + {k}, order[1..]);
    }
  }

  /** The first field of the second line restores the first set of the order. */
  lemma RestoreSetsFirst(st: R.Store, K: set<string>, order: seq<string>)
    requires R.Wf(st) && Encodable(st)
    requires K <= st.sets.Keys && order != [] && Enumerates(order, st.sets.Keys - K)
    ensures order[0] in st.sets && order[0] !in K
    ensures RestoreSets(Staged(st, K), SetFields(st.sets, order) + [""])
         == RestoreSets(Staged(st, K + {order[0]}), SetFields(st.sets, order[1..]) + [""])
  {
    var k := order[0];
    assert k in order;
    assert forall x :: x in order[1..] ==> x in order;
    var es := st.sets[k];
    var f := k + ":" + Terminated(Items(es), "||");
    var rest := SetFields(st.sets, order[1..]) + [""];
    assert SetFields(st.sets, order) + [""] == [f] + rest;
    SetFieldOf(k, es);
    StagedStep(st, K, k);
    hide R.AddPairs, Upsert, R.Zadd, R.Wf, SetField, Split, Terminated, Staged, SetFields, Encodable, ZaddArgs, Items;
    RestoreSetsCons(Staged(st, K), f, rest, k, ZaddArgs(es));
  }

  /** A readable field at the front of the second line: its ZADD, then the rest. */
  lemma RestoreSetsCons(st: R.Store, f: string, rest: seq<string>, k: string, pairs: seq<string>)
    requires SetField(f) == Some((k, pairs))
    ensures RestoreSets(st, [f] + rest) == RestoreSets(R.Zadd(st, k, pairs), rest)
  {
    hide R.Zadd, SetField;
    assert f != "" by {
      assert ':' !in "";
    }
    assert ([f] + rest)[1..] == rest;
  }

  /** ZADD of one more set of st, with its own members. */
  lemma StagedStep(st: R.Store, K: set<string>, k: string)
    requires R.Wf(st) && Encodable(st) && K <= st.sets.Keys && k in st.sets && k !in K
    ensures R.Zadd(Staged(st, K), k, ZaddArgs(st.sets[k])) == Staged(st, K + {k})
  {
    var base := Staged(st, K);
    assert k !in base.keys by {
      assert k !in st.strings;
    }
    assert R.ZaddBase(base, k) == (base, []);
    assert EncodableSet(st.sets[k]);
    ReplaySet(st.sets[k]);
    PutSetStaged(st, K, k);
    hide R.AddPairs, Upsert, ZaddArgs, Encodable, EncodableSet, R.Wf, Sorted, UniqueKeys, Staged, R.PutSet, R.ZaddBase;
    assert R.Zadd(base, k, ZaddArgs(st.sets[k])) == R.PutSet(base, k, st.sets[k]);
  }

  /** Storing one more set of st over the staged key space stages it. */
  lemma PutSetStaged(st: R.Store, K: set<string>, k: string)
    requires K <= st.sets.Keys && k in st.sets
    ensures R.PutSet(Staged(st, K), k, st.sets[k]) == Staged(st, K + {k})
  {
    var r, t := R.PutSet(Staged(st, K), k, st.sets[k]), Staged(st, K + {k});
    assert r.ttl == t.ttl;
    assert r.sets == t.sets;
  }

  lemma {:induction false} StringFieldsPlain(m: map<string, string>, order: seq<string>, c: char)
    requires forall k :: k in order ==> k in m
    requires forall k :: k in m ==> Plain(k) && Plain(m[k])
    requires c in ",\n"
    ensures forall i :: 0 <= i < |StringFields(m, order)| ==> c !in StringFields(m, order)[i]
    decreases |order|
  {
    if order != [] {
      StringFieldsPlain(m, order[1..], c);
      assert StringFields(m, order) == [order[0] + ":" + m[order[0]]] + StringFields(m, order[1..]);
    }
  }

  lemma {:induction false} SetFieldsPlain(sets: map<string, seq<Entry<int>>>, order: seq<string>, c: char)
    requires forall k :: k in order ==> k in sets
    requires forall k :: k in sets ==> Plain(k) && EncodableSet(sets[k])
    requires c in ",\n"
    ensures forall i :: 0 <= i < |SetFields(sets, order)| ==> c !in SetFields(sets, order)[i]
    decreases |order|
  {
    if order != [] {
      var es := sets[order[0]];
      ItemsPlain(es, c);
      TerminatedAvoids(Items(es), "||", c);
      SetFieldsPlain(sets, order[1..], c);
      assert SetFields(sets, order) == [order[0] + ":" + Terminated(Items(es), "||")] + SetFields(sets, order[1..]);
    }
  }

  /** A line BackUp writes holds no line break and does not end in a carriage return. */
  lemma LineIntact(fields: seq<string>)
    requires forall i :: 0 <= i < |fields| ==> ',' !in fields[i] && '\n' !in fields[i]
    ensures '\n' !in Terminated(fields, ",") && DropCR(Terminated(fields, ",")) == Terminated(fields, ",")
  {
    TerminatedAvoids(fields, ",", '\n');
    if fields != [] {
      TerminatedEnds(fields, ",");
    }
  }

  /**
   * The round trip: whatever order Go's maps are visited in, restoring the
   * file BackUp writes into an empty key space succeeds and gives back the
   * same strings and the same sorted sets, every key live with the record -1.
   */
  lemma RoundTrip(st: R.Store, order1: seq<string>, order2: seq<string>)
    requires R.Wf(st) && Encodable(st)
    requires Enumerates(order1, st.strings.Keys) && Enumerates(order2, st.sets.Keys)
    ensures Restore(R.Empty, File(StringsLine(st.strings, order1), SetsLine(st.sets, order2))) == (Reloaded(st), true)
  {
    hide R.AddPairs, Upsert, R.Zadd, R.Set, SetField, StringField, Split, RestoreStrings, RestoreSets, R.Wf;
    BackUpLines(st, order1, order2);
    assert Loaded(st.strings, {}) == R.Empty;
    RestoreStringsRun(st.strings, {}, order1);
    assert Loaded(st.strings, st.strings.Keys) == Staged(st, {});
    RestoreSetsRun(st, {}, order2);
    ReloadedStaged(st);
  }

  /** Restore finds the two lines BackUp wrote, and their fields. */
  lemma BackUpLines(st: R.Store, order1: seq<string>, order2: seq<string>)
    requires Encodable(st)
    requires Enumerates(order1, st.strings.Keys) && Enumerates(order2, st.sets.Keys)
    ensures var line1, line2 := StringsLine(st.strings, order1), SetsLine(st.sets, order2);
      && ReadLines(File(line1, line2)) == (line1, line2)
      && Split(line1, ",") == StringFields(st.strings, order1) + [""]
      && Split(line2, ",") == SetFields(st.sets, order2) + [""]
  {
    var fields1 := StringFields(st.strings, order1);
    var fields2 := SetFields(st.sets, order2);
    var line1, line2 := Terminated(fields1, ","), Terminated(fields2, ",");
    StringFieldsPlain(st.strings, order1, ',');
    StringFieldsPlain(st.strings, order1, '\n');
    SetFieldsPlain(st.sets, order2, ',');
    SetFieldsPlain(st.sets, order2, '\n');
    LineIntact(fields1);
    LineIntact(fields2);
    SplitPair(line1, "\n", line2);
    SplitTerminated(fields1, ",");
    SplitTerminated(fields2, ",");
  }

  lemma ReloadedStaged(st: R.Store)
    requires R.Wf(st)
    ensures Staged(st, st.sets.Keys) == Reloaded(st)
  {
  }
}

/**
 * The key space of redis/redis.go as a value: the string map (getSetMap),
 * the expiry records (ttlMap), the live keys (keysExist) and the members of
 * every sorted set (orderedSetMap). Each command is a function from the old
 * state to the new state and its reply; the class in keyspace.dfy carries
 * out the same commands in place and is proved against these functions.
 */
module Redis {
  import opened Entries
  import opened StrConv
  import opened Constants
  import opened Text

  datatype Store = Store(strings: map<string, string>, ttl: map<string, int>, keys: set<string>,
                         sets: map<string, seq<Entry<int>>>)

  const Empty := Store(map[], map[], {}, map[])
  const NilReply := "(nil)"
  const Ok := "ok"
  const InvalidCommand := "Invalid command"

  /**
   * A key is live exactly when it holds a string or a sorted set, never
   * both, and every sorted set is ordered with distinct members. Expiry
   * records may outlive their keys (EXPIRE accepts any key), and each is a
   * 64-bit `int`.
   */
  ghost predicate Wf(st: Store)
  {
    && st.strings.Keys !! st.sets.Keys
    && (forall k :: k in st.ttl ==> IsInt(st.ttl[k]))
    && st.keys == st.strings.Keys + st.sets.Keys
    && forall k :: k in st.sets ==> Sorted(st.sets[k]) && UniqueKeys(st.sets[k])
  }

  /** The decimal texts of the three records the commands themselves write or test. */
  lemma SmallNumerals()
    ensures Itoa(-1) == "-1" && Itoa(0) == "0" && Itoa(1) == "1"
  {
    assert Digits(0) == "0" && Digits(1) == "1";
  }

  // ---------------------------------------------------------------------------
  // DEL (lines 177-192)

  /** One key of DEL: a live key loses its value, its record and its place among the live keys. */
  function DelOne(st: Store, key: string): (r: (Store, bool))
    ensures r.1 <==> key in st.keys
    ensures !r.1 ==> r.0 == st
  {
    if key !in st.keys then (st, false)
    else
      var strings := if key in st.strings then st.strings - {key} else st.strings;
      var sets := if key in st.strings then st.sets else st.sets - {key};
      (Store(strings, st.ttl - {key}, st.keys - {key}, sets), true)
  }

  /** DEL over the keys in order; the flag is the "1" reply. */
  function Del(st: Store, ks: seq<string>): (r: (Store, bool))
    decreases |ks|
  {
    if ks == [] then (st, false)
    else
      var (s1, f1) := Del(st, ks[..|ks| - 1]);
      var (s2, f2) := DelOne(s1, ks[|ks| - 1]);
      (s2, f1 || f2)
  }

  function DelReply(flag: bool): string
  {
    if flag then "1" else "0"
  }

  /** The state with the keys of `gone` deleted from all four tables. */
  function Without(st: Store, gone: set<string>): Store
  {
    Store(st.strings - gone, st.ttl - (gone * st.keys), st.keys - gone, st.sets - gone)
  }

  lemma WithoutWf(st: Store, gone: set<string>)
    requires Wf(st)
    ensures Wf(Without(st, gone))
  {
  }

  lemma WithoutTwice(st: Store, a: set<string>, b: set<string>)
    ensures Without(Without(st, a), b) == Without(st, a + b)
  {
    assert (st.ttl - (a * st.keys)) - (b * (st.keys - a)) == st.ttl - ((a + b) * st.keys);
  }

  lemma DelOneWithout(st: Store, key: string)
    requires Wf(st)
    ensures DelOne(st, key).0 == Without(st, {key})
  {
    if key !in st.keys {
      assert Without(st, {key}) == st;
    } else if key in st.strings {
      assert st.sets - {key} == st.sets;
    } else {
      assert st.strings - {key} == st.strings;
    }
  }

  /**
   * DEL removes every listed key that was live from all four tables and
   * leaves every other key as it was.
   */
  lemma {:induction false} DelEffect(st: Store, ks: seq<string>)
    requires Wf(st)
    ensures Wf(Del(st, ks).0)
    ensures Del(st, ks).0 == Without(st, set k | k in ks)
  {
    if ks == [] {
      assert (set k | k in ks) == {};
      assert Without(st, {}) == st;
    } else {
      var p := ks[..|ks| - 1];
      var last := ks[|ks| - 1];
      DelEffect(st, p);
      var s1 := Del(st, p).0;
      DelOneWithout(s1, last);
      WithoutTwice(st, set k | k in p, {last});
      assert (set k | k in ks) == (set k | k in p) + {last} by {
        assert ks == p + [last];
      }
      WithoutWf(st, set k | k in ks);
    }
  }

  /** DEL replies "1" exactly when some listed key was live. */
  lemma {:induction false} DelFlag(st: Store, ks: seq<string>)
    requires Wf(st)
    ensures Del(st, ks).1 <==> exists i :: 0 <= i < |ks| && ks[i] in st.keys
  {
    if ks != [] {
      var p := ks[..|ks| - 1];
      var last := ks[|ks| - 1];
      DelFlag(st, p);
      DelEffect(st, p);
      if exists i :: 0 <= i < |ks| && ks[i] in st.keys {
        var i :| 0 <= i < |ks| && ks[i] in st.keys;
        if i < |p| {
          assert p[i] == ks[i];
        } else if last in (set k | k in p) {
          var j :| 0 <= j < |p| && p[j] == last;
        }
      }
      if exists i :: 0 <= i < |p| && p[i] in st.keys {
        var i :| 0 <= i < |p| && p[i] in st.keys;
        assert ks[i] == p[i];
      }
    }
  }

  // ---------------------------------------------------------------------------
  // Expire (lines 28-38, 61) and one tick of its decrementer (lines 46-57)

  /**
   * The synchronous part of Expire: the record becomes `timer`; the second
   * component says whether a decrementer is started, which happens when
   * there was no record or it was not positive. The seconds/milliseconds
   * unit only sets the decrementer's cadence.
   */
  function Expire(st: Store, key: string, timer: int): (r: (Store, bool))
    ensures Ttl(r.0, key) == Itoa(timer)
    ensures forall k :: k != key ==> Ttl(r.0, k) == Ttl(st, k)
    ensures r.0.keys == st.keys && r.0.strings == st.strings && r.0.sets == st.sets
    ensures r.1 <==> key !in st.ttl || st.ttl[key] <= 0
  {
    (st.(ttl := st.ttl[key := timer]), key !in st.ttl || st.ttl[key] <= 0)
  }

  /**
   * One wake-up of the decrementer for `key`: no record or a record of -1
   * stops it, a record of 1 deletes the key and stops it, and any other
   * record is decreased by one as a 64-bit `int`, so that the least record
   * wraps around to the greatest. The second component says whether it
   * keeps running.
   */
  function Tick(st: Store, key: string): (r: (Store, bool))
  {
    if key !in st.ttl then (st, false)
    else if st.ttl[key] == 1 then (Del(st, [key]).0, false)
    else if st.ttl[key] == -1 then (st, false)
    else (st.(ttl := st.ttl[key := Decrement(st.ttl[key])]), true)
  }

  /**
   * EXPIRE k -9223372036854775808 starts a decrementer (the record is not
   * positive), and its first wake-up leaves the greatest 64-bit record.
   */
  lemma TickWraps(st: Store, key: string)
    requires Wf(st) && key in st.ttl && st.ttl[key] == MinInt
    ensures Tick(st, key) == (st.(ttl := st.ttl[key := MaxInt]), true)
    ensures Ttl(Tick(st, key).0, key) == Itoa(MaxInt)
  {
  }

  /** The state after at most n wake-ups of the decrementer for `key`, stopping when it stops. */
  function Run(st: Store, key: string, n: nat): Store
    decreases n
  {
    if n == 0 then st
    else
      var (s1, running) := Tick(st, key);
      if running then Run(s1, key, n - 1) else s1
  }

  /** A live key whose record is n counts down one per wake-up and stays live for n - 1 of them. */
  lemma {:induction false} Countdown(st: Store, key: string, n: int, j: nat)
    requires key in st.ttl && st.ttl[key] == n && j < n
    ensures Run(st, key, j) == st.(ttl := st.ttl[key := n - j])
    decreases j
  {
    if j == 0 {
      assert st.ttl[key := n] == st.ttl;
    } else {
      var s1 := st.(ttl := st.ttl[key := n - 1]);
      assert Tick(st, key) == (s1, true);
      Countdown(s1, key, n - 1, j - 1);
      assert s1.ttl[key := n - 1 - (j - 1)] == st.ttl[key := n - j];
    }
  }

  /** ... and the n-th wake-up deletes it, exactly as DEL would have at the start. */
  lemma {:induction false} CountdownExpires(st: Store, key: string, n: int)
    requires key in st.keys && key in st.ttl && st.ttl[key] == n && n >= 1
    ensures Run(st, key, n) == Del(st, [key]).0
    decreases n
  {
    if n > 1 {
      var s1 := st.(ttl := st.ttl[key := n - 1]);
      assert Tick(st, key) == (s1, true);
      CountdownExpires(s1, key, n - 1);
      assert s1.ttl - {key} == st.ttl - {key};
    }
  }

  /**
   * A record of 1 on a key that is not live is never cleared: the DEL at
   * the last wake-up finds nothing to delete, so TTL keeps reporting "1".
   */
  lemma RecordOutlivesKey(st: Store, key: string)
    requires key !in st.keys && key in st.ttl && st.ttl[key] == 1
    ensures Tick(st, key) == (st, false)
    ensures Ttl(Tick(st, key).0, key) == "1"
  {
    SmallNumerals();
    assert Del(st, [key]).0 == st by {
      assert [key][..0] == [];
    }
  }

  lemma TickWf(st: Store, key: string)
    requires Wf(st)
    ensures Wf(Tick(st, key).0)
  {
    DelEffect(st, [key]);
  }

  // ---------------------------------------------------------------------------
  // SET (lines 64-95), GET (lines 164-174), TTL (lines 194-200)

  /** The string stored under key; with `persist` the record becomes -1. */
  function Stored(st: Store, key: string, value: string, persist: bool): Store
  {
    Store(st.strings[key := value], if persist then st.ttl[key := -1] else st.ttl, st.keys + {key}, st.sets)
  }

  /**
   * SET key value [EX|ex|PX|px n]: the key is deleted first; a fourth token
   * that is not one of the four expiry words, or an n Atoi rejects, ends
   * the command with "Invalid command" and nothing stored. Otherwise the
   * value is stored, with the record n (through Expire) or -1. The third
   * component says whether a decrementer was started.
   */
  function Set(st: Store, command: seq<string>): (r: (Store, string, bool))
    requires |command| >= 3 && |command| != 4
  {
    var key := command[1];
    var cleared := DelOne(st, key).0;
    if |command| <= 3 then (Stored(cleared, key, command[2], true), Ok, false)
    else if command[3] == "EX" || command[3] == "ex" || command[3] == "PX" || command[3] == "px" then
      var n := Atoi(command[4]);
      if n.ok then
        var (timed, spawn) := Expire(cleared, key, n.value);
        (Stored(timed, key, command[2], false), Ok, spawn)
      else (cleared, InvalidCommand, false)
    else (cleared, InvalidCommand, false)
  }

  /** GET: the string, the wrong-type reply for a sorted set, "(nil)" for a key that is not live. */
  function Get(st: Store, key: string): (reply: string)
  {
    if key in st.strings then st.strings[key]
    else if key in st.keys then ErrorConstants(9)
    else NilReply
  }

  /** TTL: the record in decimal, or "-2" when there is none. */
  function Ttl(st: Store, key: string): (reply: string)
  {
    if key in st.ttl then Itoa(st.ttl[key]) else "-2"
  }

  /** Whether a command leaves every key other than `key` as it found it. */
  predicate OthersUntouched(st: Store, r: Store, key: string)
  {
    && r.strings - {key} == st.strings - {key}
    && r.sets - {key} == st.sets - {key}
    && r.ttl - {key} == st.ttl - {key}
    && r.keys - {key} == st.keys - {key}
  }

  /**
   * SET key value: GET then reads the value, TTL reads "-1", a sorted set
   * that was under the key is gone, and no other key changes.
   */
  lemma SetThenGet(st: Store, command: seq<string>)
    requires Wf(st) && |command| == 3
    ensures var (r, reply, spawn) := Set(st, command);
      && Wf(r) && reply == Ok && !spawn
      && Get(r, command[1]) == command[2] && Ttl(r, command[1]) == "-1"
      && command[1] !in r.sets
      && OthersUntouched(st, r, command[1])
  {
    SmallNumerals();
  }

  /**
   * SET key value EX n with n a valid integer: the value is stored, TTL
   * reads n, and a decrementer is started unless a positive record of a
   * key that was not live survived the DEL.
   */
  lemma SetWithExpiry(st: Store, command: seq<string>)
    requires Wf(st) && |command| == 5 && command[3] in ["EX", "ex", "PX", "px"] && Atoi(command[4]).ok
    ensures var (r, reply, spawn) := Set(st, command);
      && Wf(r) && reply == Ok
      && (spawn <==> command[1] in st.keys || command[1] !in st.ttl || st.ttl[command[1]] <= 0)
      && Get(r, command[1]) == command[2] && Ttl(r, command[1]) == Itoa(Atoi(command[4]).value)
      && OthersUntouched(st, r, command[1])
  {
    var key := command[1];
    var n := Atoi(command[4]).value;
    var cleared := Without(st, {key});
    DelOneWithout(st, key);
    WithoutOne(st, key);
    var r := Stored(cleared.(ttl := cleared.ttl[key := n]), key, command[2], false);
    assert Set(st, command) == (r, Ok, key !in cleared.ttl || cleared.ttl[key] <= 0);
    StoredTimed(st, cleared, key, command[2], n);
  }

  lemma StoredTimed(st: Store, cleared: Store, key: string, value: string, n: int)
    requires Wf(cleared) && OthersUntouched(st, cleared, key) && key !in cleared.keys && IsInt(n)
    ensures var r := Stored(cleared.(ttl := cleared.ttl[key := n]), key, value, false);
      Wf(r) && Get(r, key) == value && Ttl(r, key) == Itoa(n) && OthersUntouched(st, r, key)
  {
    var r := Stored(cleared.(ttl := cleared.ttl[key := n]), key, value, false);
    assert r.ttl - {key} == cleared.ttl - {key};
    assert r.strings - {key} == cleared.strings - {key};
    assert r.keys - {key} == cleared.keys - {key};
    assert r.sets == cleared.sets;
    assert forall k :: k in r.ttl ==> IsInt(r.ttl[k]);
  }

  /**
   * A rejected SET still carries out its DEL: the reply is "Invalid
   * command" and the key, of either kind, is gone.
   */
  lemma SetRejected(st: Store, command: seq<string>)
    requires Wf(st) && |command| == 5
    requires command[3] !in ["EX", "ex", "PX", "px"] || !Atoi(command[4]).ok
    ensures var (r, reply, spawn) := Set(st, command);
      && Wf(r) && reply == InvalidCommand && !spawn
      && command[1] !in r.keys && Get(r, command[1]) == NilReply
      && (command[1] in st.keys ==> Ttl(r, command[1]) == "-2")
      && OthersUntouched(st, r, command[1])
  {
  }

  /** GET tells the three kinds of key apart: a string, a sorted set, nothing. */
  lemma GetOutcomes(st: Store, key: string)
    requires Wf(st)
    ensures key in st.strings ==> Get(st, key) == st.strings[key]
    ensures key in st.sets ==> Get(st, key) == WrongType
    ensures key !in st.keys ==> Get(st, key) == NilReply
  {
  }

  /** After DEL, every listed key reads as absent: GET gives "(nil)" and TTL "-2" if it was live. */
  lemma DelThenRead(st: Store, ks: seq<string>, key: string)
    requires Wf(st) && key in ks
    ensures Get(Del(st, ks).0, key) == NilReply
    ensures key in st.keys ==> Ttl(Del(st, ks).0, key) == "-2"
  {
    DelEffect(st, ks);
    assert key in (set k | k in ks);
  }

  // ---------------------------------------------------------------------------
  // ZADD (lines 97-120)

  /** The members named by the score/member pairs. */
  function Members(values: seq<string>): set<string>
  {
    set i | 0 <= i < |values| && i % 2 == 1 :: values[i]
  }

  /**
   * The pairs added one after another with AddOrUpdate and payload 0; a
   * score Atoi rejects counts as Atoi's value (0, or the bound it clamps to).
   */
  function AddPairs(s: seq<Entry<int>>, values: seq<string>): seq<Entry<int>>
    requires |values| % 2 == 0
    decreases |values|
  {
    if values == [] then s
    else
      var n := |values|;
      Upsert(AddPairs(s, values[..n - 2]), values[n - 1], Atoi(values[n - 2]).value, 0)
  }

  /** Walking an even-length sequence two at a time never stops halfway through a pair. */
  lemma EvenStep(i: int, n: int)
    requires 0 <= i < n && i % 2 == 0 && n % 2 == 0
    ensures i + 2 <= n && (i + 2) % 2 == 0
  {
  }

  /** One more pair of a ZADD. */
  lemma AddPairsNext(s: seq<Entry<int>>, values: seq<string>, i: int)
    requires 0 <= i && i + 2 <= |values| && i % 2 == 0
    ensures AddPairs(s, values[..i + 2]) == Upsert(AddPairs(s, values[..i]), values[i + 1], Atoi(values[i]).value, 0)
  {
    var w := values[..i + 2];
    assert w[..|w| - 2] == values[..i];
    assert w[|w| - 2] == values[i] && w[|w| - 1] == values[i + 1];
  }

  /**
   * Adding pairs keeps a set ordered with distinct members, adds exactly
   * the named members, leaves every other member's entry alone, and the
   * last pair's member ends up with the last pair's score.
   */
  lemma {:induction false} AddPairsProps(s: seq<Entry<int>>, values: seq<string>)
    requires |values| % 2 == 0 && Sorted(s) && UniqueKeys(s)
    ensures var r := AddPairs(s, values);
      && Sorted(r) && UniqueKeys(r)
      && Keys(r) == Keys(s) + Members(values)
      && (forall x: Entry<int> :: x.key !in Members(values) ==> (x in r <==> x in s))
    decreases |values|
  {
    if values == [] {
      assert Members(values) == {};
    } else {
      var p := values[..|values| - 2];
      AddPairsProps(s, p);
      AddPairsStep(s, values);
    }
  }

  lemma AddPairsStep(s: seq<Entry<int>>, values: seq<string>)
    requires |values| >= 2 && |values| % 2 == 0
    requires var t := AddPairs(s, values[..|values| - 2]);
      && Sorted(t) && UniqueKeys(t)
      && Keys(t) == Keys(s) + Members(values[..|values| - 2])
      && (forall x: Entry<int> :: x.key !in Members(values[..|values| - 2]) ==> (x in t <==> x in s))
    ensures var r := AddPairs(s, values);
      && Sorted(r) && UniqueKeys(r)
      && Keys(r) == Keys(s) + Members(values)
      && (forall x: Entry<int> :: x.key !in Members(values) ==> (x in r <==> x in s))
      && Entry(Atoi(values[|values| - 2]).value, values[|values| - 1], 0) in r
  {
    var n := |values|;
    var t := AddPairs(s, values[..n - 2]);
    var score := Atoi(values[n - 2]).value;
    assert AddPairs(s, values) == Upsert(t, values[n - 1], score, 0);
    UpsertProps(t, values[n - 1], score, 0);
    MembersSnoc(values);
    hide AddPairs, Sorted, UniqueKeys, Upsert, Members, Keys;
    var r := Upsert(t, values[n - 1], score, 0);
    forall x: Entry<int> | x.key !in Members(values) ensures x in r <==> x in s {
      assert x.key != values[n - 1] && x.key !in Members(values[..n - 2]);
    }
  }

  lemma MembersSnoc(values: seq<string>)
    requires |values| >= 2 && |values| % 2 == 0
    ensures Members(values) == Members(values[..|values| - 2]) + {values[|values| - 1]}
  {
    var n := |values|;
    var p := values[..n - 2];
    forall m | m in Members(values) ensures m in Members(p) || m == values[n - 1] {
      var i :| 0 <= i < n && i % 2 == 1 && values[i] == m;
      if i < n - 2 {
        assert p[i] == m;
      }
    }
    forall m | m in Members(p) ensures m in Members(values) {
      var i :| 0 <= i < |p| && i % 2 == 1 && p[i] == m;
      assert values[i] == m;
    }
    assert values[n - 1] in Members(values) by {
      assert (n - 1) % 2 == 1;
    }
  }

  /** The set ZADD starts from: a fresh one over a string, the existing one otherwise. */
  function ZaddBase(st: Store, key: string): (Store, seq<Entry<int>>)
  {
    if key in st.keys && key in st.strings then (DelOne(st, key).0, [])
    else if key in st.keys && key in st.sets then (st, st.sets[key])
    else (st, [])
  }

  /**
   * ZADD key score member ...: the pairs are added to the key's sorted set,
   * which replaces a string held under the key; the key is live and its
   * record is -1. The reply is always "ok".
   */
  function Zadd(st: Store, key: string, values: seq<string>): (r: Store)
    requires |values| % 2 == 0
  {
    var (base, start) := ZaddBase(st, key);
    PutSet(base, key, AddPairs(start, values))
  }

  /** The sorted set `contents` stored under key, with the record -1. */
  function PutSet(st: Store, key: string, contents: seq<Entry<int>>): Store
  {
    Store(st.strings, st.ttl[key := -1], st.keys + {key}, st.sets[key := contents])
  }

  lemma PutSetEffect(st: Store, key: string, contents: seq<Entry<int>>)
    requires Wf(st) && key !in st.strings && Sorted(contents) && UniqueKeys(contents)
    ensures Wf(PutSet(st, key, contents)) && OthersUntouched(st, PutSet(st, key, contents), key)
  {
    var r := PutSet(st, key, contents);
    assert r.ttl - {key} == st.ttl - {key};
    assert r.sets - {key} == st.sets - {key};
    assert r.keys - {key} == st.keys - {key};
  }

  /**
   * ZADD on a string key destroys the string and starts an empty set; on a
   * sorted-set key it adds to that set; either way the key now holds a
   * sorted set, TTL reads "-1", and no other key changes.
   */
  lemma ZaddEffect(st: Store, key: string, values: seq<string>)
    requires Wf(st) && |values| % 2 == 0
    ensures var r := Zadd(st, key, values);
      && Wf(r)
      && key in r.sets && key !in r.strings && key in r.keys && Ttl(r, key) == "-1"
      && r.sets[key] == AddPairs(if key in st.sets then st.sets[key] else [], values)
      && Keys(r.sets[key]) == Keys(if key in st.sets then st.sets[key] else []) + Members(values)
      && Get(r, key) == WrongType
      && OthersUntouched(st, r, key)
  {
    var start := if key in st.sets then st.sets[key] else [];
    var base := if key in st.strings then Without(st, {key}) else st;
    var c := AddPairs(start, values);
    ZaddBaseEffect(st, key);
    assert Zadd(st, key, values) == PutSet(base, key, c);
    WithoutOne(st, key);
    AddPairsProps(start, values);
    PutSetEffect(base, key, c);
    hide Zadd, ZaddBase, AddPairs, Without, Wf, OthersUntouched;
    var r := PutSet(base, key, c);
    assert Ttl(r, key) == "-1" by {
      SmallNumerals();
    }
    assert ErrorConstants(9) == WrongType;
  }

  lemma WithoutOne(st: Store, key: string)
    requires Wf(st)
    ensures Wf(Without(st, {key})) && OthersUntouched(st, Without(st, {key}), key)
  {
    var base := Without(st, {key});
    assert base.strings - {key} == st.strings - {key};
    assert base.sets - {key} == st.sets - {key};
    assert base.ttl - {key} == st.ttl - {key};
  }

  lemma ZaddBaseEffect(st: Store, key: string)
    requires Wf(st)
    ensures ZaddBase(st, key) == (if key in st.strings then Without(st, {key}) else st,
                                  if key in st.sets then st.sets[key] else [])
  {
    if key in st.strings {
      DelOneWithout(st, key);
    }
  }

  // ---------------------------------------------------------------------------
  // ZRANGE (lines 122-150) and ZRANK (lines 152-162)

  /** One line of ZRANGE's reply, with or without the score. */
  function Line(e: Entry<int>, scores: bool): string
  {
    if scores then "(1): " + e.key + " (2): " + Itoa(e.score) + "\n" else e.key + "\n"
  }

  function Lines(es: seq<Entry<int>>, scores: bool): string
  {
    if es == [] then "" else Line(es[0], scores) + Lines(es[1..], scores)
  }

  lemma {:induction false} LinesSnoc(es: seq<Entry<int>>, e: Entry<int>, scores: bool)
    ensures Lines(es + [e], scores) == Lines(es, scores) + Line(e, scores)
  {
    if es != [] {
      assert (es + [e])[1..] == es[1..] + [e];
      LinesSnoc(es[1..], e, scores);
    }
  }

  /**
   * ZRANGE key start stop [withscores]: bounds Atoi rejects count as Atoi's
   * value; the members GetByRankRange reports, one per line and followed by
   * "ok", with scores when the third argument is "withscores" in any case.
   */
  function Zrange(st: Store, key: string, args: seq<string>): (reply: string)
    requires |args| >= 2
  {
    var start := Atoi(args[0]).value;
    var stop := Atoi(args[1]).value;
    var withscores := if |args| > 2 then args[2] else "false";
    if key in st.sets then Lines(RankRange(st.sets[key], start, stop), ToLower(withscores) == "withscores") + Ok
    else if key in st.keys then ErrorConstants(9)
    else NilReply
  }

  /**
   * ZRANK key member: the member's 1-based rank in decimal, "0" when it is
   * not in the set, and "0" as well for the member "" when `hidden`: the
   * set's top level passes over that member, so FindRank stops on the
   * header, whose key is also "". The value forgets node heights, so which
   * sets hide "" is a parameter here.
   */
  function Zrank(st: Store, key: string, member: string, hidden: bool): (reply: string)
  {
    if key in st.sets then
      if member == "" && hidden then "0" else Itoa(RankOf(st.sets[key], member))
    else if key in st.keys then ErrorConstants(9)
    else NilReply
  }

  /** The keys of entries, in order. */
  function KeysOf(es: seq<Entry<int>>): (ks: seq<string>)
    ensures |ks| == |es| && forall i :: 0 <= i < |es| ==> ks[i] == es[i].key
  {
    if es == [] then [] else [es[0].key] + KeysOf(es[1..])
  }

  predicate NoNewline(s: string)
  {
    forall i :: 0 <= i < |s| ==> s[i] != '\n'
  }

  /**
   * ZRANGE's reply without scores reads back: split at line breaks it is
   * the members of the rank range, in order, then "ok" (members contain no
   * line break).
   */
  lemma {:induction false} ZrangeLines(es: seq<Entry<int>>)
    requires forall i :: 0 <= i < |es| ==> NoNewline(es[i].key)
    ensures Split(Lines(es, false) + Ok, "\n") == KeysOf(es) + [Ok]
  {
    if es == [] {
      FindNone(Ok, "\n");
    } else {
      assert forall i :: 0 <= i < |es| - 1 ==> es[1..][i] == es[i + 1];
      ZrangeLines(es[1..]);
      ZrangeLinesStep(es);
    }
  }

  lemma ZrangeLinesStep(es: seq<Entry<int>>)
    requires es != [] && NoNewline(es[0].key)
    requires Split(Lines(es[1..], false) + Ok, "\n") == KeysOf(es[1..]) + [Ok]
    ensures Split(Lines(es, false) + Ok, "\n") == KeysOf(es) + [Ok]
  {
    hide Split, Find, OccursAt;
    var rest := Lines(es[1..], false) + Ok;
    assert Lines(es, false) + Ok == es[0].key + "\n" + rest;
    assert '\n' !in es[0].key;
    SplitFront(es[0].key, "\n", rest);
    assert KeysOf(es) + [Ok] == [es[0].key] + (KeysOf(es[1..]) + [Ok]);
  }

  /**
   * ZRANK on a sorted-set key answers "0" exactly for a key that is not a
   * member, and otherwise the position at which that member stands, except
   * that a hidden member "" is answered "0" too; on a string key it is the
   * wrong-type reply and on a key that is not live "(nil)".
   */
  lemma ZrankMeaning(st: Store, key: string, member: string, hidden: bool)
    requires Wf(st)
    ensures key in st.sets && (member != "" || !hidden) ==>
      (Zrank(st, key, member, hidden) == "0" <==> member !in Keys(st.sets[key]))
    ensures key in st.sets && member in Keys(st.sets[key]) && (member != "" || !hidden) ==>
      var r := NumeralValue(Zrank(st, key, member, hidden));
      1 <= r <= |st.sets[key]| && st.sets[key][r - 1].key == member
    ensures key in st.sets && member == "" && hidden ==> Zrank(st, key, member, hidden) == "0"
    ensures member != "" ==> Zrank(st, key, member, hidden) == Zrank(st, key, member, !hidden)
    ensures key in st.strings ==> Zrank(st, key, member, hidden) == WrongType
    ensures key !in st.keys ==> Zrank(st, key, member, hidden) == NilReply
  {
    if key in st.sets && (member != "" || !hidden) {
      var s := st.sets[key];
      var r := RankOf(s, member);
      SmallNumerals();
      if Itoa(r) == "0" {
        ItoaInjective(r, 0);
      }
    }
  }
}

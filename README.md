# redisServer in Dafny

A model of the sequential core of redisServer, a small in-memory Redis clone
written in Go, with proofs of what each part promises. There are four parts.

- **The sorted set** (`sortedset/sortedset.go`) is a rank-indexed skip list.
  - Every node has one forward link and one span per level. Level 0 also has backward links.
  - The set keeps a header sentinel, a tail, a length, a current level and a member-to-node index.
  - The model keeps the nodes in an arena: a sequence of node records addressed by index. Index 0 is the header and `Nil` (-1) is Go's nil pointer.
  - A ghost field `order` lists the members along level 0.
  - `SortedSet.Valid` ties every field to `order` and `Elements()`, the members as a sorted sequence of entries. The operations are specified on `Elements()`.
  - The invariant covers several facts. Each link reaches the next position that is as tall as the level. Each span is the rank distance it covers. Level 0 is strictly ordered by (score, member). Backward links point at predecessors, and the tail is the last member. The length is the member count. No member is taller than the current level, and the header's top link is set unless the level is 1. The index maps exactly the members to their nodes.
  - `insertNode`, `deleteNode`, the searches and the range walks are imperative methods over the arena. Each loop has its invariants, and each method is proved against the sequence-level specification in `Entries`.
- **The key space** (`redis/redis.go`) holds the four package variables.
  - These are the string map, the expiry records, the set of live keys and the sorted sets.
  - The model has them twice. `Redis.Store` is a value with one function per command. `KeySpaces.KeySpace` is a class that updates them in place and is proved against those functions.
  - `Expire` is modelled by its synchronous part plus a flag that says whether a decrementer goroutine would start. One wake-up of the decrementer is `Tick`, and n wake-ups are `Run`.
- **The snapshot format** (`BackUp` and `Restore` in `redis/redis.go`).
  - The two lines BackUp writes are pure functions of the maps and of an order of their keys.
  - Restore parses the text and replays every field as SET or ZADD.
  - Writing a snapshot and restoring it gives back the same key space.
- **The command router and the error catalogue** (`handleOperation`, the input loop of `main.go`, and `constants/constants.go`).
  - These cover the verb matching, the token count each verb takes, the read/write split of the input loop, and the message of each error code.

Strings are `seq<char>`, which holds only valid UTF-8 text. Go's 64-bit `int` appears where the source depends on it: `strconv.Atoi`'s range, the default limit 2147483648 of GetByScoreRange, and the expiry records, which stay in the 64-bit range and whose decrement wraps from -9223372036854775808 to 9223372036854775807. Elsewhere integers are unbounded.

## Model

| member | source | states |
|---|---|---|
| Constants.ErrorConstants | constants/constants.go:3-26 | codes 0-9 and no others have a defined message; code 0 is "Invalid Input", code 9 the WRONGTYPE reply, and codes 1-8 are "Invalid parameters - " followed by that verb's usage line |
| Constants.VerbsDistinct | constants/constants.go:6-21 | the eight parameter errors name eight different verbs |
| Constants.UsageDistinct | constants/constants.go:6-21 | the eight usage lines are pairwise different |
| Constants.ErrorConstantsDistinct | constants/constants.go:4-24 | the ten defined codes give ten pairwise different messages |
| Lex.Irreflexive | sortedset/sortedset.go:55-58 | Go's byte-wise string order is irreflexive |
| Lex.Transitive | sortedset/sortedset.go:55-58 | the member order is transitive |
| Lex.Total | sortedset/sortedset.go:55-58 | any two different members are ordered one way or the other |
| Lex.Asymmetric | sortedset/sortedset.go:55-58 | the member order never holds both ways |
| Entries.BeforeIrreflexive | sortedset/sortedset.go:55-58 | no (score, member) pair precedes itself |
| Entries.BeforeTransitive | sortedset/sortedset.go:55-58 | the skip list's (score, member) order is transitive |
| Entries.BeforeTotal | sortedset/sortedset.go:55-58 | two different (score, member) pairs are always ordered, so level 0 has one place for each |
| Entries.PrefixLen | sortedset/sortedset.go:55-61 | a search stops after the longest prefix whose entries satisfy the search condition; the next entry fails it |
| Entries.PrefixSplit | sortedset/sortedset.go:55-61 | for a condition that holds on a prefix of the order, it holds exactly on the positions before PrefixLen |
| Entries.PrefixLenAt | sortedset/sortedset.go:132-140 | searching for a present (score, member) stops just before it, or just after it with a non-strict test |
| Entries.IndexOf | sortedset/sortedset.go:421-423 | the index finds a member exactly when it is present, and at its own position |
| Entries.IndexOfUnique | sortedset/sortedset.go:421-423 | with distinct members, looking up the member at position i gives i |
| Entries.InsertSortedProps | sortedset/sortedset.go:42-103 | inserting a new member keeps the order strict and the members distinct, adds exactly that entry and grows the count by one |
| Entries.RemoveAtProps | sortedset/sortedset.go:106-125 | removing a position keeps the order and distinctness and loses exactly that member |
| Entries.UpsertProps | sortedset/sortedset.go:198-218 | AddOrUpdate keeps the set ordered and distinct, leaves the new (score, member, payload) in it, leaves every other member as it was, and grows the count only for a new member |
| Entries.UpsertSameScore | sortedset/sortedset.go:203-205 | re-adding a member with its own score keeps the count and the member's rank |
| Entries.ReverseMultiset | sortedset/sortedset.go:403-407 | reversing a result keeps its elements |
| Entries.ReverseAt | sortedset/sortedset.go:403-407 | the reversed result holds element k at position n-1-k |
| Entries.ResolveRank | sortedset/sortedset.go:350-361 | a positive rank stays as it is; a negative rank r becomes count+r+1; anything at or below 0 becomes 1 |
| Entries.RankRangeAt | sortedset/sortedset.go:347-409 | GetByRankRange returns the members of ranks lo..min(hi, count), ascending, or descending when the resolved start lies after the resolved end |
| Entries.RankRangePartition | sortedset/sortedset.go:379-401 | with removal, the members returned plus the members left are exactly the members before |
| Entries.RankRangeSingle | sortedset/sortedset.go:412-418 | a one-rank window holds one member exactly when that rank exists, and that member |
| Entries.Within | sortedset/sortedset.go:239-344 | the score filter keeps exactly the entries whose score lies in the interval |
| Entries.ScoreWindowWithin | sortedset/sortedset.go:299-340 | on a sorted set, the slice between the two searches is exactly the members whose score lies in the interval |
| Entries.LimitOf | sortedset/sortedset.go:242-245 | the limit is the option's when positive, else the default 2147483648 |
| Entries.ScoreRangeFilter | sortedset/sortedset.go:239-344 | GetByScoreRange is the first `limit` members in the interval, ascending; or descending with bounds and flags swapped when start > end |
| Entries.ScoreRangeSound | sortedset/sortedset.go:239-344 | every member GetByScoreRange returns is in the set and in the requested interval, and there are at most `limit` of them |
| Entries.ScoreRangeHeaderLeak | sortedset/sortedset.go:264-300 | a concrete set and query for which the code as written returns the header entry, which is not a member |
| SortedSets.SortedSet.ElementsOrdered | sortedset/sortedset.go:12-18 | a valid set's members are strictly ordered by (score, member) and distinct |
| SortedSets.SortedSet.constructor | sortedset/sortedset.go:152-159 | New gives an empty set at level 1 with an empty index and a 32-level header |
| SortedSets.SortedSet.GetCount | sortedset/sortedset.go:162-164 | the stored length is the number of members |
| SortedSets.SortedSet.PeekMin | sortedset/sortedset.go:168-170 | the first member, or none for an empty set |
| SortedSets.SortedSet.PeekMax | sortedset/sortedset.go:183-185 | the tail is the last member, or none for an empty set |
| SortedSets.SortedSet.GetByKey | sortedset/sortedset.go:421-423 | the member's entry when present, none otherwise |
| SortedSets.SortedSet.AddOrUpdate | sortedset/sortedset.go:198-218 | true iff the member was absent; the new members are the old ones upserted with the new score and payload |
| SortedSets.SortedSet.Remove | sortedset/sortedset.go:223-230 | returns the member's entry and drops exactly that member; an absent member gives none and no change |
| SortedSets.SortedSet.PopMin | sortedset/sortedset.go:174-180 | removes and returns exactly the first member; an empty set stays empty |
| SortedSets.SortedSet.PopMax | sortedset/sortedset.go:189-195 | removes and returns exactly the last member; an empty set stays empty |
| SortedSets.SortedSet.GetByScoreRange | sortedset/sortedset.go:239-344 | as written: the members in the interval up to the limit, plus the header entry when a descending query reaches no member and 0 passes the lower bound |
| SortedSets.SortedSet.GetByScoreRangeFixed | sortedset/sortedset.go:239-344 | the members in the interval, up to the limit, in the direction the bounds give, and nothing else |
| SortedSets.SortedSet.GetByRankRange | sortedset/sortedset.go:347-409 | the members of the resolved rank window in the caller's direction; with `remove` exactly those leave the set, otherwise nothing changes |
| SortedSets.SortedSet.ReadRankRange | sortedset/sortedset.go:347-409 | the rank window, without changing the set |
| SortedSets.SortedSet.RemoveRankRange | sortedset/sortedset.go:347-409 | the rank window, and the set keeps exactly the members outside it |
| SortedSets.SortedSet.GetByRank | sortedset/sortedset.go:412-418 | the member of the resolved rank if it exists, removed with `remove` |
| SortedSets.SortedSet.FindRank | sortedset/sortedset.go:426-446 | as written: the 1-based rank, 0 when absent, except that the member "" reads 0 when the set hides it (the header's top link passes it) |
| SortedSets.SortedSet.FindRankFixed | sortedset/sortedset.go:426-446 | 0 iff the member is absent, otherwise its 1-based rank, at which it stands |
| SkipOps.RandomLevel | sortedset/sortedset.go:30-40 | the level of a new node lies in 1..32 |
| SkipOps.Search | sortedset/sortedset.go:46-63 | update[i] is the last node at or before the insert position that reaches level i, and rank[i] is its rank; rank[0] is the position |
| SkipOps.Advance | sortedset/sortedset.go:55-61 | one level of the search ends at that level's update node for the position |
| SkipOps.OpenLevels | sortedset/sortedset.go:67-74 | new levels get the header as update node with rank 0, and the header's span becomes the length |
| SkipOps.LinkNew | sortedset/sortedset.go:77-84 | on each level of the new node, it takes over update[i]'s link and span remainder, and update[i] links to it with span rank[0]-rank[i]+1 |
| SkipOps.BumpSpans | sortedset/sortedset.go:87-89 | above the new node, each update node's span grows by one |
| SkipOps.Grow | sortedset/sortedset.go:65-76 | creating the new node and raising the level keeps the members and the invariant, and gives the updates for every level in use |
| SkipOps.Splice | sortedset/sortedset.go:77-102 | linking and backward fix-up leave a valid list whose members are the old ones with the new entry inserted in order |
| SkipOps.InsertNode | sortedset/sortedset.go:42-103 | insertNode gives a valid list, one longer, whose members are the old ones with (score, member, payload) inserted in order |
| SkipOps.Unlink | sortedset/sortedset.go:107-114 | every level is rewritten around the removed node: a link to it jumps over it, any other update span shrinks by one |
| SkipOps.Shrink | sortedset/sortedset.go:120-122 | the level drops while the header's top link is nil, never below 1, and the list is then valid |
| SkipOps.DeleteNode | sortedset/sortedset.go:106-125 | deleteNode gives a valid list, one shorter, without that member, with the index entry removed and the level no higher |
| SkipOps.Delete | sortedset/sortedset.go:128-149 | true iff the member is present with that score; then exactly it is removed, otherwise nothing changes |
| SkipOps.AddNew | sortedset/sortedset.go:210-216 | a member not in the index is inserted in order and the list stays valid |
| SkipOps.RemoveMember | sortedset/sortedset.go:223-230 | Remove on the fields: the member's entry, and the members without it |
| SkipOps.UpsertMember | sortedset/sortedset.go:198-218 | AddOrUpdate on the fields: true iff new; the members are the old ones upserted |
| SkipRanges.Find | sortedset/sortedset.go:264-281 | the top-down search ends at the last node whose score is below the bound (or at or below it) |
| SkipRanges.CollectUp | sortedset/sortedset.go:321-340 | the ascending walk returns the members from the start position to the upper bound, at most `limit` of them |
| SkipRanges.CollectDown | sortedset/sortedset.go:283-300 | the backward walk returns the members down to the lower bound, descending, at most `limit`, plus the header when it starts there and 0 passes the bound |
| SkipRanges.ScoreRangeUp | sortedset/sortedset.go:302-340 | the ascending query is the first `limit` members in the interval |
| SkipRanges.ScoreRangeDown | sortedset/sortedset.go:264-300 | the descending query is the first `limit` members of the reversed interval, plus the header in the leaking case |
| SkipRanges.UnderSplits | sortedset/sortedset.go:323-332 | on a sorted set, the members under the upper bound are exactly a prefix |
| SkipRanges.OverSplits | sortedset/sortedset.go:283-292 | on a sorted set, the members over the lower bound are exactly a suffix |
| SkipRanges.EmptyIsRange | sortedset/sortedset.go:259-261 | an empty set answers every score query with nothing |
| SkipRanges.DownIsRange | sortedset/sortedset.go:264-300 | the descending walk's result is GetByScoreRange's, as written or fixed |
| SkipRanges.UpIsRange | sortedset/sortedset.go:302-340 | the ascending walk's result is GetByScoreRange's, as written or fixed |
| SkipRanges.ScoreRangeQuery | sortedset/sortedset.go:239-344 | GetByScoreRange on the fields equals the as-written specification, or the fixed one when the walk stops at the header |
| SkipRanks.RankAdvance | sortedset/sortedset.go:373-378 | one level of the rank search stops at that level's last node whose rank is below start |
| SkipRanks.RankSearch | sortedset/sortedset.go:368-386 | the search ends at rank min(start-1, count); with `remove` it gives the update node of every level |
| SkipRanks.CollectRanks | sortedset/sortedset.go:388-401 | the walk without removal returns the members of ranks start..min(end, count) |
| SkipRanks.RemoveStep | sortedset/sortedset.go:390-396 | one step of the walk with removal hands back the member at the position and deletes exactly it, keeping the update nodes valid |
| SkipRanks.RemoveNext | sortedset/sortedset.go:390-400 | the removing walk takes one more member into the result and out of the set |
| SkipRanks.RemoveFrom | sortedset/sortedset.go:390-400 | the removing walk runs to the end of the window or the end of the list |
| SkipRanks.RemoveRanks | sortedset/sortedset.go:388-401 | with removal, the result is the window and the set keeps exactly what lies around it |
| SkipRanks.ReverseInPlace | sortedset/sortedset.go:403-407 | the swap loop reverses the result |
| SkipRanks.SanitizedBounds | sortedset/sortedset.go:350-361 | the sanitizing branches give ResolveRank for both bounds |
| SkipRanks.WindowIsRankRange | sortedset/sortedset.go:363-408 | the walk's window, swapped back when reversed, is the specified rank range and, with removal, the specified remainder |
| SkipRanks.RankWindow | sortedset/sortedset.go:368-401 | the search and walk give the window of ranks lo..hi; without removal the fields do not change |
| SkipRanks.RankRangeQuery | sortedset/sortedset.go:347-409 | GetByRankRange on the fields returns the rank range and, with removal, leaves the remainder |
| SkipRanks.RankLevel | sortedset/sortedset.go:431-443 | one level of FindRank either finds the rank (0 in the "" header case as written) or passes the descent to the next level |
| SkipRanks.FindRankLevels | sortedset/sortedset.go:430-444 | the descent returns the member's rank m, or 0 when the header's "" matches first |
| SkipRanks.FindRankWalk | sortedset/sortedset.go:426-446 | FindRank on the fields: the rank of the member, 0 when absent, with the "" exception unless comparing nodes |
| SkipSteps.InsertFinish | sortedset/sortedset.go:91-101 | after the link loops and the backward and tail fix-up, the list is valid and holds the new entry in order |
| SkipSteps.DeleteFinish | sortedset/sortedset.go:115-119 | after unlinking and the backward and tail fix-up, the list is valid and lacks exactly that member |
| SkipSteps.DeleteFinds | sortedset/sortedset.go:142-143 | the node after the search is the member exactly when the member is present with that score |
| SkipSteps.DictInsert | sortedset/sortedset.go:214-216 | recording the new node in the index keeps the index exact |
| SkipSteps.DictDelete | sortedset/sortedset.go:124 | dropping the member from the index keeps the index exact |
| SkipSteps.DictFinds | sortedset/sortedset.go:201 | a member in the index maps to its own node at its own position |
| SkipSteps.ValueWrite | sortedset/sortedset.go:203-205 | replacing a payload in place keeps the invariant and changes only that entry's payload |
| SkipLinks.InsertLevel | sortedset/sortedset.go:77-84 | the two link and span writes at one level keep that level exact for the list with the new node |
| SkipLinks.DeleteLevel | sortedset/sortedset.go:107-114 | the link and span rewrite at one level keeps that level exact for the list without the node |
| SkipLinks.BackwardIns | sortedset/sortedset.go:91-98 | the backward writes of insertNode make every member point back at its predecessor |
| SkipLinks.BackwardDel | sortedset/sortedset.go:115-119 | the backward write of deleteNode makes every remaining member point back at its predecessor |
| SkipLinks.TopLink | sortedset/sortedset.go:120-122 | the header's link at a level is nil exactly when no member reaches that level |
| SkipLinks.BottomLevel | sortedset/sortedset.go:168-170 | at level 0 each node links to the next member with span 1 |
| StrConv.Atoi | main.go:47 | a numeral in the 64-bit range parses to its value; anything else fails, reading 0 for bad syntax and the clamped bound when out of range |
| StrConv.Decrement | redis/redis.go:53 | Go's `value - 1` on a 64-bit int: the result is in range and equals value - 1 modulo 2^64, and is exactly value - 1 unless value is the least int |
| StrConv.Itoa | redis/redis.go:197 | the decimal text of n is a numeral whose value is n |
| StrConv.AtoiItoa | redis/redis.go:219 | parsing what Itoa wrote gives back the number, for every 64-bit value |
| StrConv.ItoaInjective | redis/redis.go:197 | different numbers have different decimal texts |
| Text.ToLower | main.go:16 | ASCII capitals become lower case and every other character is kept |
| Text.Find | main.go:143 | the first occurrence of the separator, or -1 when there is none |
| Text.SplitJoin | main.go:143 | strings.Split gives the pieces between the separators: joined with the separator they are the text again, and none contains the separator |
| Text.JoinSplit | main.go:143 | pieces free of a one-character separator, joined with it, split back into exactly those pieces, empty ones included |
| Text.SplitPair | redis/redis.go:248-250 | a field with one separator and none in its parts splits into exactly those two parts |
| Text.SplitTerminated | redis/redis.go:243 | splitting pieces each closed by the separator gives the pieces and a final empty piece |
| Redis.DelOne | redis/redis.go:180-189 | a key is deleted (true) iff it is live; otherwise nothing changes |
| Redis.DelEffect | redis/redis.go:177-192 | DEL keeps the key space well formed and removes every listed key from all four maps, and nothing else |
| Redis.DelFlag | redis/redis.go:177-192 | DEL replies "1" iff at least one listed key was live |
| Redis.WithoutTwice | redis/redis.go:177-192 | deleting one set of keys and then another is deleting both at once |
| Redis.Expire | redis/redis.go:28-38 | TTL of the key becomes the timer, other records and the maps stay, and a decrementer starts iff there was no positive record |
| Redis.Countdown | redis/redis.go:40-54 | the decrementer lowers a record of n by one per wake-up, leaving the key live, for n-1 wake-ups |
| Redis.CountdownExpires | redis/redis.go:40-54 | at the n-th wake-up the key is deleted exactly as DEL would |
| Redis.RecordOutlivesKey | redis/redis.go:46-49 | a record of 1 on a key that is not live is left in place, so TTL keeps reading "1" |
| Redis.TickWf | redis/redis.go:46-57 | a wake-up keeps the key space well formed, every expiry record included in the 64-bit range |
| Redis.TickWraps | redis/redis.go:53 | a record of -9223372036854775808 (which EXPIRE accepts and which starts a decrementer) becomes 9223372036854775807 at the next wake-up, and TTL reports that |
| Redis.SetThenGet | redis/redis.go:65-95 | SET key value stores the string: GET returns it, TTL reads "-1", the key holds no set, other keys are untouched |
| Redis.SetWithExpiry | redis/redis.go:65-95 | SET with EX/ex/PX/px n stores the value with record n and starts a decrementer iff Expire would; other keys untouched |
| Redis.SetRejected | redis/redis.go:66-87 | a bad expiry clause replies "Invalid command" and the key is gone (GET "(nil)", TTL "-2" if it was live); other keys untouched |
| Redis.GetOutcomes | redis/redis.go:165-174 | GET gives the string, the WRONGTYPE reply for a set, or "(nil)" for a key that is not live |
| Redis.DelThenRead | redis/redis.go:177-200 | after DEL a listed key reads "(nil)" and, if it was live, TTL "-2" |
| Redis.AddPairsProps | redis/redis.go:111-115 | ZADD's loop keeps the set ordered and distinct, its members are the old ones plus the listed ones, and unlisted members keep their entries |
| Redis.ZaddEffect | redis/redis.go:98-120 | after ZADD the key holds a set (a string under it is gone), is live with TTL "-1", GET reads WRONGTYPE, the set is the old one (or empty) with the pairs added, and other keys are untouched |
| Redis.ZaddBaseEffect | redis/redis.go:99-109 | ZADD starts from the key's set, or from an empty set after deleting a string under the key |
| Redis.PutSetEffect | redis/redis.go:116-118 | storing a sorted set under a key keeps the key space well formed and leaves other keys alone |
| Redis.LinesSnoc | redis/redis.go:138-146 | the reply grows by one line per member |
| Redis.ZrangeLines | redis/redis.go:142-147 | without scores, the reply splits at line breaks into the members of the window in order, then "ok" |
| Redis.ZrankMeaning | redis/redis.go:153-162 | ZRANK reads "0" iff the member is absent, else r with the member at rank r; the member "" of a set that hides it reads "0" although present, and only "" is affected; WRONGTYPE on a string; "(nil)" on a key that is not live |
| KeySpaces.KeySpace.AbsWf | redis/redis.go:19-22 | the maps in place always form a well-formed key space: each live key holds exactly one kind |
| KeySpaces.KeySpace.constructor | redis/redis.go:19-22 | the key space starts empty |
| KeySpaces.KeySpace.Del | redis/redis.go:177-192 | DEL in place gives the state and reply of Redis.Del |
| KeySpaces.KeySpace.DelKey | redis/redis.go:180-189 | deleting one key in place is Redis.DelOne |
| KeySpaces.KeySpace.Expire | redis/redis.go:28-62 | Expire in place, for a timer that is a 64-bit int, is Redis.Expire and replies "ok" |
| KeySpaces.KeySpace.Tick | redis/redis.go:46-57 | one decrementer wake-up in place, wrapping at the least 64-bit record, is Redis.Tick |
| KeySpaces.KeySpace.Set | redis/redis.go:65-95 | SET in place gives the state, reply and spawn flag of Redis.Set |
| KeySpaces.KeySpace.StoreString | redis/redis.go:89-93 | the tail of SET stores the string and the -1 record |
| KeySpaces.KeySpace.Get | redis/redis.go:165-174 | GET in place answers as Redis.Get |
| KeySpaces.KeySpace.Ttl | redis/redis.go:195-200 | TTL in place answers as Redis.Ttl |
| KeySpaces.KeySpace.Zrank | redis/redis.go:152-162 | ZRANK in place, with FindRank as written, answers as Redis.Zrank with the set's own hiding of "" |
| KeySpaces.KeySpace.Zrange | redis/redis.go:123-150 | ZRANGE in place answers as Redis.Zrange |
| KeySpaces.KeySpace.Zadd | redis/redis.go:98-120 | ZADD in place gives the state of Redis.Zadd and replies "ok" |
| KeySpaces.KeySpace.TakeSet | redis/redis.go:99-109 | ZADD's choice of set in place is Redis.ZaddBase |
| KeySpaces.KeySpace.PutSet | redis/redis.go:116-118 | storing the set in place is Redis.PutSet |
| KeySpaces.FormatLines | redis/redis.go:136-147 | ZRANGE's output loop builds Redis.Lines |
| KeySpaces.AddPairs | redis/redis.go:111-115 | ZADD's loop over pairs leaves the set equal to Redis.AddPairs |
| KeySpaces.WriteStrings | redis/redis.go:208-212 | BackUp's first loop builds the first snapshot line |
| KeySpaces.WriteItems | redis/redis.go:217-220 | BackUp's inner loop writes one item per member, each closed by the double bar |
| KeySpaces.ReadPairs | redis/redis.go:260-270 | Restore's inner loop collects the ZADD arguments Snapshot.ItemPairs describes |
| KeySpaces.KeySpace.BackUp | redis/redis.go:202-227 | the two lines BackUp writes, for the order in which the maps are visited |
| KeySpaces.KeySpace.WriteSet | redis/redis.go:216-220 | a set's part of the second line lists its members in rank order |
| KeySpaces.KeySpace.Restore | redis/redis.go:231-277 | Restore in place reaches the state Snapshot.Restore describes and reports whether Go would have panicked |
| KeySpaces.KeySpace.RestoreStrings | redis/redis.go:243-253 | Restore's first loop in place is Snapshot.RestoreStrings |
| KeySpaces.KeySpace.RestoreSets | redis/redis.go:254-272 | Restore's second loop in place is Snapshot.RestoreSets |
| Snapshot.WholeRange | redis/redis.go:217 | GetByRankRange(0, -1) lists the whole set |
| Snapshot.DropCR | redis/redis.go:238-242 | a line ending in a carriage return loses exactly that one character, and any other line is kept whole, as bufio.ScanLines does |
| Snapshot.StringField | redis/redis.go:248-250 | a string field parses iff it has a colon (otherwise Go indexes past the split and panics) |
| Snapshot.ItemPairs | redis/redis.go:264-270 | the items give an even number of ZADD arguments iff every non-empty item has a `$` |
| Snapshot.SetField | redis/redis.go:261-270 | a set field without a colon does not parse; a parsed one gives ZADD arguments in pairs |
| Snapshot.RestoreWf | redis/redis.go:231-277 | restoring any text keeps the key space well formed |
| Snapshot.LineIntact | redis/redis.go:208-213 | a snapshot line of separator-free fields has no line break and survives scanning unchanged |
| Snapshot.BackUpLines | redis/redis.go:202-243 | the file reads back as its two lines, and each splits at commas into the fields BackUp wrote plus an empty one |
| Snapshot.RoundTrip | redis/redis.go:202-277 | restoring the snapshot of a key space into an empty one gives the same strings and sets, each key live with TTL -1 |
| Router.Code | constants/constants.go:6-21 | each known verb has its parameter-error code in 1..8 |
| Router.Dispatch | main.go:19-79 | an unknown verb replies ErrorConstants(0); a wrong token count replies the verb's parameter error; both leave the state and start nothing; read verbs never change the state |
| Router.ToLowerTwice | main.go:16 | lower-casing is idempotent |
| Router.CaseInsensitive | main.go:16 | a command behaves the same as with its verb lower-cased, so ASCII case variants of a verb behave alike |
| Router.SetIgnoresVerb | main.go:20-22 | SET reads only the tokens after the verb, so its spelling does not matter |
| Router.ErrorNamesVerb | main.go:19-75 | the parameter error each verb replies with names that verb |
| Router.LowerOfUpper | main.go:16 | a word of capitals lower-cases letter by letter |
| Router.Dispatched | main.go:20-61 | with a token count its verb accepts, SET and ZADD run as the key space defines; DEL gives Redis.Del's store and the reply of its flag, "0" or "1" (Redis.DelFlag: "1" iff a listed key was live); EXPIRE with a timer Atoi accepts gives Redis.Expire's state and spawn flag and replies "ok", otherwise its parameter error with the state unchanged and nothing started |
| Router.DispatchedReads | main.go:22-67 | GET, TTL and ZRANGE with a token count they accept reply Redis.Get, Redis.Ttl and Redis.Zrange and change nothing |
| Router.DispatchedZrank | main.go:70-75 | ZRANK with three tokens answers as Redis.Zrank and changes nothing |
| Router.Tokens | main.go:143 | the tokens are space-free pieces that joined with single spaces give the line back |
| Router.TokensUnique | main.go:143 | they are the only such pieces, empty ones included |
| Router.TokensTrailingSpace | main.go:143 | "zadd k 1 " gives the tokens zadd, k, 1 and the empty member |
| Router.ReadsChangeNothing | main.go:143-149 | a line sent to the read workers never changes the key space or starts a decrementer |
| Router.HandleOperation | main.go:15-79 | handleOperation on the key space in place gives the reply, state and spawn flag of Router.Handle, ZRANK using whether that set hides its member "" |
| RankExample.FindRankExample | sortedset/sortedset.go:426-446 | a two-member set with member "" at rank 1 for which FindRank as written answers 0 and the fixed walk answers 1 |

## Left out

- Concurrency and time. The decrementer goroutine, its one-second or one-millisecond sleep, the three read workers, the write worker, the channels and the 20-second backup timer are not modelled. `Expire` and `Set` return whether a decrementer would start, and `Tick`/`Run` are its wake-ups called explicitly. Unsynchronised access to the maps from several goroutines is not modelled.
- Redis.Expire: the seconds/milliseconds argument is dropped, because it only sets the decrementer's cadence.
- The input loop itself: reading stdin, removing the "\n", the `quit` command (which writes a backup and stops), the banners and printing the replies. `Router.Tokens` models the split at main.go:143 and `Router.IsReadVerb` the routing at main.go:145.
- File I/O in BackUp and Restore: `os.Create`, `os.Open`, the error prints and `log.Fatal`, and bufio.Scanner's 64 KB line limit. The model works on the text of the file.
- KeySpaces.KeySpace.Restore: a panic in Go (a field without `:` or an item without `$`) is the result flag `false`. The state is the one reached by the fields before the bad one.
- Snapshot.RoundTrip: needs keys, values and members free of `:`, `,`, `$`, `|` and line breaks, and 64-bit scores. The format cannot carry the others, and their round trip fails.
- Go map iteration order is unspecified. BackUp therefore takes the order of the keys as a parameter, and the round trip holds for every order.
- SkipOps.RandomLevel: `math/rand` and the float comparison are not modelled. The method returns some level in 1..32, chosen nondeterministically.
- The node payload `interface{}` is a type parameter. ZADD always stores 0.
- Text.ToLower: `strings.ToLower` is modelled on ASCII letters only; other characters are kept. Router.CaseInsensitive therefore covers ASCII case variants only: Go also maps "ZRAN\u212A" (Kelvin sign) to "zrank", the model does not.
- Strings are `seq<char>`, sequences of Unicode scalar values. A Go string read from stdin can hold bytes that are not valid UTF-8; such strings have no counterpart in the model.
- The `set` package behind `keysExist` is not part of this model. The live keys are a `set<string>`.
- `strconv.Atoi` is modelled as decimal digits with an optional sign, in the 64-bit range. Underscores and other bases are not accepted, which matches base-10 Atoi.
- Integer widths. Scores, spans and lengths are unbounded integers. Go's `SCORE` is `int` and spans are `int64`; neither can wrap for a set that fits in memory. Atoi's 64-bit range is modelled, and so are the expiry records: they are 64-bit ints, and the decrementer's `value - 1` wraps.

## Findings

| source | as written | input that shows it | evidently intended | confidence | as-written member | corrected member |
|---|---|---|---|---|---|---|
| sortedset/sortedset.go:440 | FindRank compares the key of the node reached, which can be the header, with the member; the header's key is "" | a set with members "" (score 1) and "b" (score 2), where "b" has two levels and "" one, reached by "zadd k 1 " (Router.TokensTrailingSpace) and "zadd k 2 b": ZRANK of "" answers 0 | the 1-based rank of "", here 1 | not executed | SortedSets.SortedSet.FindRank, RankExample.FindRankExample | SortedSets.SortedSet.FindRankFixed |
| sortedset/sortedset.go:264-300 | the descending walk of GetByScoreRange starts from the header when no member lies within the upper bound, and reports the header if its score 0 passes the lower bound | members {("a", 5)}, start 3, end -1, no options: the result is the header entry (score 0, member "") | an empty result | not executed | SortedSets.SortedSet.GetByScoreRange, Entries.ScoreRangeHeaderLeak | SortedSets.SortedSet.GetByScoreRangeFixed |

# A verified model of RedGo

RedGo is a Redis-style server written in Go. This project models its data structures and protocols in Dafny and proves
what they are meant to guarantee. Where the code falls short of its intent, the model follows the code, shows a case that
goes wrong, and proves the exact condition under which it goes right.

`dafny verify dfyconfig.toml` checks everything.

**Sorted sets.** `SkipList` is the pointer structure itself: nodes with forward pointers, relinked in place. Every
operation keeps the pointers of all levels, the level, the tail and the length in agreement with one sorted sequence.
`ZSet` puts it beside a dict, behind a listpack, and refines one map from members to scores.

**Sharded store and locks.** `Dict` and `DictScan` are the sharded dictionary as one map. `Programs` and `Commands` give
commands as sequences of accesses to single keys, so that others can come in between, with the keys their prepare
functions lock; `CommandEffects` says what each of them does to the store, key by key. `LockPlan` computes the lock order; `LockProtocol` is the step system of all threads with read-write
locks in which a waiting writer keeps new readers out, and in which replacing a table frees its mutexes; `Progress`
bounds its runs. `SerialOrder` proves that the log is a serial order of every run of well-behaved commands, `Company`
that no weaker condition on a command would do, for the store as for the locks.

**Sets.** `IntSet` works on packed little-endian two's-complement bytes, with the spare bytes of the Go slice
modelled, and refines a set of numbers through its encoding upgrades. `HashSet` refines, on top of it, the set states of
`Values`: members with a mode, where an integer set takes "007" for 7. `Pouring` proves exactly when the members of one
set, added to a new one in the random order of a Go map, give the same set in every order.

**Protocol, log and recovery.** `Resp` is the printer and the parser as a state machine over bytes, `RoundTrip` says
exactly which messages come through. `Aof` logs and replays with SELECT lines. `Wire` decodes and encodes command lines.
`Recovery` joins all of it: for every concurrent run of recoverable commands, the bytes of the log rebuild the store,
whatever the orders in which either server went through its maps, exactly when every SUNIONSTORE found settled sources;
and (with `TornLog`) any first bytes of the log rebuild a serial run of the first commands.

**Patterns and cluster.** `Wildcard` proves the matching table against the division of a key into stretches. `Ring` is
the consistent-hash ring with its owners by clockwise distance. `Relay` is a connection between two nodes, on which
lines and replies are printed and parsed. `SetCommands` runs the set algebra of one node on HashSets; `SetAlgebra` and
`StoreForms` compare it with the router's. `Cluster` is the routing functions over nodes, refined to one key space.

`Bytes`, `Bits`, `Collections` and `Decimal` hold byte order, bit arithmetic, listings of sets and decimal texts. What the
code leaves to chance or to code outside it is a parameter: a `World` has the shards of the keys, the orders in which maps
are gone through, and the reading of score texts.

Two comments in the source promise more than the code does, and the model follows the code: a negated range such as
`[^0-9]` excludes only its two ends (database/key.go:127, lib/wildcard/wildcard.go:92-95), and the rank of a
skip-list pair counts hops, not nodes (datastruct/skiplist/skiplist.go:246-266).

## Model

| member | source | states |
|---|---|---|
| `SkipList.SkipList.constructor` | datastruct/skiplist/skiplist.go:27-36 | a new list is valid and holds nothing |
| `SkipList.SkipList.RandomLevel` | datastruct/skiplist/skiplist.go:39-46 | some level from 1 to the maximum, whatever the coin tosses |
| `SkipList.SkipList.Descend` | datastruct/skiplist/skiplist.go:53-63 | the search loop stops on every level at the last node before the bound, and its hop count is the number of nodes in front that no later node in front towers over |
| `SkipList.SkipList.Insert` | datastruct/skiplist/skiplist.go:49-97 | for every random level: every forward pointer, the level, the tail and the length agree again with one sorted sequence, which gained exactly the pair, at its place |
| `SkipList.SkipList.InsertOfHeight` | datastruct/skiplist/skiplist.go:49-97 | Insert once the coins have fallen: the same, and the heights gain exactly that height at that place |
| `SkipList.SkipList.Delete` | datastruct/skiplist/skiplist.go:100-152 | reports whether the pair was there, takes exactly one occurrence out, keeps the whole invariant including level shrinking and the tail |
| `SkipList.InsertKeepsOrder` | datastruct/skiplist/skiplist.go:49-97 | inserting at the place found keeps the sequence sorted, and keeps it strictly sorted if and only if the pair was absent |
| `Bytes.BytesLessExactly` | datastruct/skiplist/skiplist.go:55-59 | one text is less than another if and only if it is a proper prefix of it, or has the lesser byte at the first place where they differ |
| `SkipList.StrictlySortedExactly` | datastruct/skiplist/skiplist.go:55-59 | the list order: lower scores first, and among equal scores the members in that order of texts |
| `SkipList.TiesInOrder` | datastruct/skiplist/skiplist.go:210-243 | b, a at one score and c above: ranks 0 to 1 are a, b; negative ranks count from the end, and both ends belong to the range |
| `SkipList.ChainIsTheTallerNodes` | datastruct/skiplist/skiplist.go:85-89 | the chain of a level is exactly the nodes that reach it, in list order |
| `SkipList.SkipList.CountInRange` | datastruct/skiplist/skiplist.go:155-175 | is the number of pairs in the score range |
| `SkipList.SkipList.RangeByScore` | datastruct/skiplist/skiplist.go:178-207 | is filter by score, then drop the offset, then take the count |
| `SkipList.RangesAreClosed` | datastruct/skiplist/skiplist.go:155-175 | score ranges include both ends |
| `SkipList.LimitedRanges` | datastruct/skiplist/skiplist.go:178-207 | an offset skips pairs of the range, and a count that is not positive keeps all |
| `SkipList.SkipList.RangeByRank` | datastruct/skiplist/skiplist.go:210-243 | is the clamped slice of the sorted sequence for all positive and negative indices |
| `SkipList.SkipList.GetRank` | datastruct/skiplist/skiplist.go:246-266 | -1 for an absent member; for a present pair the number of nodes in front that no later node in front towers over, which is never above its index, and equal to it if and only if the heights in front never increase (always, on one level) |
| `SkipList.SeesAllIffNonIncreasing` | datastruct/skiplist/skiplist.go:250-258 | a descent passes through every node in front exactly when their heights never increase |
| `SkipList.RankFallsShort` | datastruct/skiplist/skiplist.go:246-266 | three inserts whose nodes get the heights 1, 2 and 1: GetRank gives 1 for the member that RangeByRank finds at index 2 |
| `ZSet.ZSet.Add` | datastruct/zset/zset.go:120-161 | one map gains the member with the score the encoding keeps; it is the score given if and only if the set is in skiplist encoding or six decimals keep the score, and never more than half a millionth away from it; a listpack stays one up to 128 members |
| `ZSet.ZSet.Remove` | datastruct/zset/zset.go:207-228 | the map loses the member, and the result says whether it was there, in both encodings |
| `ZSet.ZSet.Score` | datastruct/zset/zset.go:68-84 | looks the member up in the map, in both encodings |
| `ZSet.ZSet.Len` | datastruct/zset/zset.go:60-65 | the size of the map, in both encodings |
| `ZSet.ZSet.Count` | datastruct/zset/zset.go:231-243 | the number of members of the map in the score range, in both encodings |
| `ZSet.ZSet.RangeByRank` | datastruct/zset/zset.go:164-204 | a clamped slice of an order of the map by score; in skiplist encoding ties are in member order |
| `ZSet.ZSet.ConvertToSkiplist` | datastruct/zset/zset.go:92-112 | the map stays, and dict and skip list hold the same pairs, each member once |
| `ZSet.CountAgrees` | datastruct/zset/zset.go:231-243 | counting pairs in a sequence that denotes the map is counting members of the map |
| `ZSet.RoundedAndCounted` | datastruct/zset/zset.go:120-161 | 0.1234567 is kept as 0.123457, and counts include both ends of the range |
| `Values.FormatAfterParse` | datastruct/zset/zset.go:87-117 | a score text read and written again is the same text |
| `Values.FormatScoreIsNearest` | datastruct/zset/zset.go:87-89 | the text of a score is the nearest number of millionths, and of two equally near ones the even one |
| `Values.KeptIsClose` | datastruct/zset/zset.go:87-117 | a kept score is at most half a millionth off, and not off at all if and only if it is a whole number of millionths |
| `Values.TinyScoreIsLost` | datastruct/zset/zset.go:87-89 | a score of a tenth of a millionth is kept as 0 |
| `Dict.ComputeCapacity` | datastruct/dict/concurrent_dict.go:27-41 | 16 up to 16, and for larger values up to 2^32 a power of two not below the value and below twice the value |
| `Dict.ComputeFnv32` | datastruct/dict/concurrent_dict.go:76-83 | the loop computes the FNV-1 hash |
| `Dict.KnownHashes` | datastruct/dict/concurrent_dict.go:76-83 | the published FNV-1 hashes of the empty text, a and ab |
| `Bits.BitByBit` | datastruct/dict/concurrent_dict.go:80-80 | the modelled operators and, or and xor work bit by bit |
| `Dict.SpreadIsModulo` | datastruct/dict/concurrent_dict.go:86-96 | with a power of two as table size the mask is the hash modulo the size, hence a shard index |
| `Dict.ConcurrentDict.constructor` | datastruct/dict/concurrent_dict.go:44-70 | a valid empty dictionary whose table size is a power of two |
| `Dict.ConcurrentDict.Get` | datastruct/dict/concurrent_dict.go:107-129 | looks the key up in the one map the shards stand for |
| `Dict.ConcurrentDict.Len` | datastruct/dict/concurrent_dict.go:131-136 | the size of the map modulo 2^32, and the size itself below 2^31 |
| `Dict.ConcurrentDict.Put` | datastruct/dict/concurrent_dict.go:139-171 | the map gains the entry, each key stays in its own shard only, and the result says whether the key is new |
| `Dict.ConcurrentDict.PutIfAbsent` | datastruct/dict/concurrent_dict.go:174-204 | an existing entry stays as it was |
| `Dict.ConcurrentDict.PutIfExists` | datastruct/dict/concurrent_dict.go:207-235 | an absent key stays absent |
| `Dict.ConcurrentDict.Remove` | datastruct/dict/concurrent_dict.go:238-266 | the map loses the key, and the result says whether it was there |
| `Dict.ConcurrentDict.Clear` | datastruct/dict/concurrent_dict.go:387-389 | the map is empty and the dictionary valid; what becomes of the mutexes that go with the table is in Company.FlushCrashes |
| `Dict.ConcurrentDict.Removes` | database/db.go:140-150 | deletes all keys and counts each key that was there once, however often it is named |
| `DictScan.Scan` | datastruct/dict/concurrent_dict.go:461-492 | the cursor grows or returns to 0; the result is every matching key of the shards it moved over, each once; why it stopped; and a result above the count comes from one shard |
| `DictScan.FullScan` | datastruct/dict/concurrent_dict.go:461-492 | following the cursor from 0 ends and yields every matching key exactly once |
| `DictScan.Keys` | datastruct/dict/concurrent_dict.go:302-315 | every key exactly once |
| `Collections.ListsOnce` | datastruct/dict/concurrent_dict.go:461-492 | a list as long as the set it holds repeats nothing |
| `LockPlan.ToLockIndices` | datastruct/dict/concurrent_dict.go:392-409 | the shards of the keys without repetition, ascending or descending |
| `LockPlan.RWLocks` | datastruct/dict/concurrent_dict.go:412-430 | goes through exactly the shards of the command in ascending order, in write mode exactly those of its write keys |
| `LockPlan.RWUnLocks` | datastruct/dict/concurrent_dict.go:433-450 | is the reverse of RWLocks with the same modes |
| `LockProtocol.OrderUnique` | datastruct/dict/concurrent_dict.go:392-409 | the ascending order of a set of shards is unique |
| `LockProtocol.RunKeepsLocks` | datastruct/dict/concurrent_dict.go:412-450 | in every state of every run in which no command can replace a table, lock words and the phases of the threads agree: who holds which shard in which mode, and who waits; nothing has crashed |
| `LockProtocol.MutualExclusion` | datastruct/dict/concurrent_dict.go:412-450 | in every state of every run in which no command can replace a table, a shard held for writing is held by nobody else |
| `LockProtocol.WaitsExactly` | datastruct/dict/concurrent_dict.go:412-430 | who waits for a shard: a reader if and only if a writer has announced itself, a writer if and only if another one has, or it has itself and readers are left |
| `LockProtocol.UnlockedShardAgrees` | datastruct/dict/concurrent_dict.go:433-450 | where mutex and threads agree, a release gives back exactly the shard and the mode that were taken, and is no release of a free mutex, which would be fatal |
| `LockProtocol.NoRunDeadlocks` | datastruct/dict/concurrent_dict.go:412-450 | in every reachable state with an unfinished command, in runs in which no command can replace a table, some thread can step, although an announced writer keeps new readers out |
| `LockProtocol.RunKeepsCommands` | database/db.go:57-73 | every logged command is the command of a thread of the run |
| `Progress.RunsEnd` | datastruct/dict/concurrent_dict.go:412-450 | without new commands and without a replaced table every run of steps is bounded, so every command finishes |
| `SerialOrder.StepKeepsInv` | database/db.go:57-73 | every step keeps the relation between the store, the serial run of the log, and the commands under way |
| `SerialOrder.LogIsSerialOrder` | database/db.go:57-73 | for every interleaving of commands that keep their footprint and log what they change, the store is the serial run of the log whenever no command is under way |
| `Programs.SoloFrame` | database/db.go:66-72 | a command that keeps its footprint does the same on stores that agree on its shards |
| `Programs.SoloElsewhere` | database/db.go:66-72 | a command that keeps its footprint changes only shards it locked for writing |
| `Commands.FootprintExactly` | database/tx_utils.go:7-54 | which commands touch only what their prepare function locks: all but GETSET, FLUSHDB, and RENAME or RENAMENX across shards |
| `Commands.QuietExactly` | database/zset.go:27-75 | for every reading of score texts: the only command that can change something without logging it is a ZADD with a bad score behind a good one |
| `Commands.Meaning` | database/set.go:59-91 | the access-by-access programs of all commands compute their plain effect on one map of strings, HashSets with their mode and sorted sets with their encoding, and log exactly when that effect says so |
| `Commands.DelMeaning` | database/key.go:31-41 | the loop of DEL removes its keys and logs exactly when one of them was there |
| `Commands.RenameMeaning` | database/key.go:86-114 | RENAME and RENAMENX move the value, with their error and refusal cases |
| `Commands.SRemMeaning` | database/set.go:151-181 | the loop of SREM removes what the set takes its members for, drops an emptied set, and logs exactly when something went |
| `Commands.SUnionMeaning` | database/set.go:333-354 | SUNIONSTORE pours its sources into one new HashSet and that into another, in the orders in which the maps happen to be gone through, or stores nothing when a source is no set |
| `Commands.ZAddMeaning` | database/zset.go:37-75 | ZADD stores all scores as the encoding keeps them, or those in front of the first bad one when the set exists, or nothing |
| `CommandEffects.GetDoes` | database/strings.go:25-34 | GET changes and logs nothing |
| `CommandEffects.SetDoes` | database/strings.go:36-46 | SET stores the text and logs |
| `CommandEffects.SetNXDoes` | database/strings.go:48-58 | SETNX stores the text if and only if the key is absent, and logs either way |
| `CommandEffects.GetSetDoes` | database/strings.go:60-71 | GETSET stores the text and logs |
| `CommandEffects.DelDoes` | database/key.go:31-41 | DEL removes exactly its keys and logs if and only if one was there |
| `CommandEffects.RenameDoes` | database/key.go:86-98 | RENAME moves the value and logs if and only if the source is there; onto itself it loses the key |
| `CommandEffects.RenameNXDoes` | database/key.go:100-114 | RENAMENX does so if and only if the source is there and the destination is not, and otherwise changes and logs nothing |
| `CommandEffects.RenameInBetween` | database/key.go:90-92 | RENAME writes its destination before it deletes its source |
| `CommandEffects.FlushDBDoes` | database/key.go:56-60 | FLUSHDB removes exactly the keys of its database and logs |
| `CommandEffects.SAddDoes` | database/set.go:59-91 | SADD adds to the set, makes one for an absent key, and leaves any other value; it logs if and only if the key is new or the set changes |
| `CommandEffects.SAddAdds` | database/set.go:59-91 | for members that are never merged: the members afterwards are those before and those given, nothing else changes, and it logs if and only if the key or a member is new |
| `CommandEffects.SRemDoes` | database/set.go:151-181 | SREM removes from the set, drops a set that it empties, leaves any other value, and logs if and only if the set changes |
| `CommandEffects.SRemRemoves` | database/set.go:151-181 | for members that are never merged: the members afterwards are those before without those given, and it logs if and only if one of them was there |
| `CommandEffects.SUnionStoreDoes` | database/set.go:333-354 | SUNIONSTORE stores a possible outcome of pouring its sources and logs if and only if every source is a set or absent, and otherwise changes nothing |
| `CommandEffects.ZAddDoes` | database/zset.go:37-75 | ZADD takes over the entries in front of the first bad score, the last one of each member counting; it logs if and only if all are good, and an absent key stays absent otherwise |
| `CommandEffects.LocksOf` | database/tx_utils.go:7-54 | the shards that each of the twelve commands locks for writing and for reading |
| `Commands.SameUnionExactly` | database/set.go:303-354 | SUNIONSTORE stores the same set whatever the orders if and only if the sources are settled: nothing that can come before a text such as 007 is a non-integer or makes more than 512 numbers |
| `Commands.FaithfulUnion` | database/set.go:333-354 | with members that are no integers or canonical decimals SUNIONSTORE stores exactly the union, with the mode that its members give it |
| `Company.SafeExactly` | database/db.go:57-73 | a command is safe beside all well-behaved commands if and only if it keeps its footprint and logs what it changes; runs with a store that differs from the serial run are given for all others |
| `Company.GetSetIsUnsafe` | database/strings.go:21-21 | a run of GETSET beside SUNIONSTORE whose store is not the serial run of its log |
| `Company.RenameIsUnsafe` | database/key.go:79-83 | the same for RENAME and RENAMENX across shards |
| `Company.FlushIsUnsafe` | database/key.go:56-60 | the same for FLUSHDB and a SET that enters between its clearing and its logging |
| `Company.FlushCrashes` | datastruct/dict/concurrent_dict.go:387-389 | FLUSHDB while a SET holds its shard: the run ends in the release of a mutex of the new table that nobody holds, which is fatal |
| `Company.FlushBreaksExclusion` | datastruct/dict/concurrent_dict.go:387-389 | and before that a second SET can hold the same shard for writing beside the first |
| `Company.LocksSafeExactly` | datastruct/dict/concurrent_dict.go:387-389 | a command keeps the locks in order beside all commands that do so, if and only if it is not FLUSHDB |
| `Company.UnloggedIsUnsafe` | database/zset.go:52-66 | the same for a command that changes something without logging it, even alone |
| `Company.HomeIsRoomy` | database/db.go:15-15 | the shards of the server are varied enough for these runs: three key names hash to three shards, and every database has shards of its own |
| `Decimal.ParseIntAfterFormat` | datastruct/set/hash_set.go:34-34 | reading back a printed integer succeeds exactly for 64-bit integers, with that integer |
| `Decimal.ParseIntExactly` | datastruct/set/hash_set.go:34-34 | a text is read as an integer if and only if it is digits with at most one sign, of a value in range |
| `Decimal.FirstDigitCounts` | datastruct/set/hash_set.go:34-34 | each digit counts for its decimal place |
| `Decimal.PrintedDigits` | datastruct/set/hash_set.go:80-80 | printed integers are digits without leading zeros, behind a minus when negative |
| `Decimal.ParseUintAfterFormat` | resp/parser/parser.go:163-170 | reading back a printed count succeeds exactly up to the bound, with that count |
| `Decimal.LeadingZerosAreNotCanonical` | datastruct/set/hash_set.go:34-34 | "007" is read as 7 but is not what 7 is printed as |
| `Resp.MultiBulkToBytes` | resp/reply/reply.go:44-56 | the buffer loop prints the header and then every element |
| `Resp.PrintedArray` | resp/reply/reply.go:44-56 | an array of a value of three bytes and a nil slice, byte by byte |
| `Resp.PrintedReplies` | resp/reply/reply.go:25-32 | status, error, empty array, nil bulk and null bulk, byte by byte |
| `Resp.ParseIt` | resp/parser/parser.go:43-129 | the endless loop sends exactly what the state machine sends, and ends as it ends |
| `RoundTrip.ArgRead` | resp/parser/parser.go:230-247 | a non-empty argument that does not begin with a dollar sign is read whole, line breaks included |
| `RoundTrip.MessageRead` | resp/parser/parser.go:43-129 | a readable message is sent as printed, after which the parser is idle |
| `RoundTrip.ReceivedExactly` | resp/parser/parser.go:43-247 | printed messages are received as they were, with the parser idle at the end, if and only if each is non-empty, has no argument that begins with a dollar sign or is nil, and none but its last argument is empty |
| `RoundTrip.SentExactly` | resp/parser/parser.go:43-247 | nothing else is sent if and only if, in addition, no message ends in an empty argument |
| `RoundTrip.RunStaysClean` | resp/parser/parser.go:230-247 | on any input, no array is ever sent that is empty or has an argument beginning with a dollar sign |
| `RoundTrip.EmptyKeyIsLost` | resp/parser/parser.go:233-242 | SET with an empty key kills the parser that reads it |
| `RoundTrip.IdleLines` | resp/parser/parser.go:72-107 | what every line outside a message makes the parser send, with the error texts |
| `RoundTrip.MessageLines` | resp/parser/parser.go:108-127 | what every line inside a message does: lengths, empty arguments, inline arguments, errors, and the panic on an empty line |
| `Aof.AofHandler.HandleAof` | aof/aof.go:134-159 | appends the queued commands with a SELECT at every change of database, and ends at the database of the last |
| `Aof.AofHandler.LoadAof` | aof/aof.go:68-128 | runs what the parser sends, crashes on a command whose execution panics, and appends SELECT 0 when the log ends elsewhere while currentDB stays there |
| `Aof.SelectCases` | aof/aof.go:100-111 | a SELECT without an index kills the loading, one with no integer is passed over, and one out of range moves only currentDB |
| `Aof.LogLayout` | aof/aof.go:134-159 | two commands of database 1 and one of database 0 with the SELECT lines in between |
| `Aof.LinesReplay` | aof/aof.go:134-159 | from a point where file and handler agree on the database, every command is replayed in its own database, in order, or the loading crashes at the first one that panics |
| `Aof.LogReplaysExactly` | aof/aof.go:68-159 | a log over any databases is replayed as it was logged if and only if every line is readable and no command panics on what is there by then |
| `Aof.RestartExactly` | aof/aof.go:118-125 | after a restart the log is replayed as logged if and only if no command panics and the first run ended in database 0, or nothing more is logged, or logging goes on in another database |
| `Aof.LogAcrossRestart` | aof/aof.go:68-159 | the same for the bytes that two handlers in a row write |
| `TornLog.TornStream` | aof/aof.go:82-90 | any first bytes of printed messages are received as some first messages, whole and in order, without a panic: all that lie wholly within the bytes, and at most one more that only lacks its line break |
| `TornLog.TornLogReplays` | aof/aof.go:82-116 | a log cut off at any byte replays some first part of its commands, each in its own database, or crashes where one of them panics: all that lie wholly within the file, and at most one more that only lacks its line break |
| `TornLog.WholeLinesGoOn` | aof/aof.go:134-159 | lines appended behind whole lines are replayed as one log |
| `TornLog.TornStarLosesOne` | aof/aof.go:134-159 | a server that stopped behind the first byte of a message loses, after its restart, the first command it appends and no other |
| `Wire.LoggedLineIsTheCommand` | database/db.go:57-73 | the line a command logs is the line it came from up to the case of its name, and decodes to the same command, to be run in whatever orders the maps are then gone through |
| `Wire.DecodesGet` | database/strings.go:17-23 | GET in any case of letters with one argument is that command, and with any other number none |
| `Wire.DecodesSet` | database/strings.go:17-23 | the same for SET with two |
| `Wire.DecodesSetNX` | database/strings.go:17-23 | the same for SETNX with two |
| `Wire.DecodesGetSet` | database/strings.go:17-23 | the same for GETSET with two |
| `Wire.DecodesDel` | database/key.go:20-28 | the same for DEL with one or more, all of them keys |
| `Wire.DecodesRename` | database/key.go:20-28 | the same for RENAME with two, the source first |
| `Wire.DecodesRenameNX` | database/key.go:20-28 | the same for RENAMENX |
| `Wire.DecodesSAdd` | database/set.go:12-26 | the same for SADD with a key and one or more members |
| `Wire.DecodesSRem` | database/set.go:12-26 | the same for SREM |
| `Wire.DecodesSUnionStore` | database/set.go:12-26 | the same for SUNIONSTORE with the destination and one or more sources |
| `Wire.DecodesZAdd` | database/zset.go:291-299 | the same for ZADD with a key and one or more pairs, scores in front of their members |
| `Wire.DecodesFlushDB` | database/key.go:20-28 | the same for FLUSHDB with none |
| `Wire.DecodesNothingElse` | database/command.go:18-25 | a line with any other name is none of the modelled commands |
| `Wire.LookupFinds` | database/command.go:18-25 | every command is found in the table under its own name |
| `Wire.NeverSelect` | aof/aof.go:101-102 | no logged command is taken for a SELECT |
| `Recovery.LoadsExactly` | aof/aof.go:116-117 | a log of commands that came through loads if and only if no GETSET in it meets a value that is no string, and then it runs its commands in order |
| `Recovery.NoPanicExactly` | database/strings.go:61-71 | no command of a log panics if and only if each GETSET finds a string or nothing |
| `Recovery.GetSetOfASetCrashes` | database/strings.go:61-71 | SADD and then GETSET of one key are both logged, and loading that log crashes |
| `Recovery.AlwaysRebuildsExactly` | aof/aof.go:68-159 | a log of recoverable commands is rebuilt as it was, at every length and in whatever orders the maps are gone through, if and only if each SUNIONSTORE in it found settled sources |
| `Recovery.XAndZerosUnsettled` | database/set.go:303-354 | SADD of x and 007 and then SUNIONSTORE of that set is a log that is not settled |
| `Recovery.RebuiltIsTheStore` | aof/aof.go:68-159 | end to end: for every run of recoverable commands in which each logged SUNIONSTORE found settled sources, parsing and running the bytes of the log on any server rebuilds the store |
| `Recovery.FaithfulRunIsRebuilt` | aof/aof.go:68-159 | for every run whose members are no integers or canonical decimals the store is rebuilt, with no further condition |
| `Recovery.AnyCutRebuildsASerialRun` | aof/aof.go:68-128 | whatever first bytes of such a log survive, what they rebuild is a serial run of the first logged commands: of all that lie wholly within them, and at most one more that only lacks its line break |
| `IntSet.SignedAfterPut` | datastruct/set/int_set.go:143-149 | writing a number in a width and reading it back gives the number if and only if it fits the width |
| `IntSet.LittleEndian` | datastruct/set/int_set.go:168-186 | the low byte of a written number comes first |
| `IntSet.RequiredIsLeast` | datastruct/set/int_set.go:82-91 | the encoding asked for is the narrowest that holds the number |
| `IntSet.InsertedChunk` | datastruct/set/int_set.go:168-186 | bytes put in at a slot boundary become a slot, and the later slots move up |
| `IntSet.RemovedChunk` | datastruct/set/int_set.go:39-48 | taking the bytes of a slot out moves the later slots down |
| `IntSet.AscendingUnique` | datastruct/set/int_set.go:111-125 | a strictly sorted sequence is determined by its set |
| `IntSet.IntSet.constructor` | datastruct/set/int_set.go:67-73 | a new set is valid and empty |
| `IntSet.IntSet.GetValueAt` | datastruct/set/int_set.go:137-152 | decodes the slot, with the offset computed in 32 bits |
| `IntSet.IntSet.FindPosition` | datastruct/set/int_set.go:189-205 | the index of the value, or the place that separates the smaller from the larger values |
| `IntSet.IntSet.InsertAt` | datastruct/set/int_set.go:155-186 | the set gains the value, the slots stay strictly sorted, and bytes behind the slots do not matter |
| `IntSet.IntSet.RemoveAt` | datastruct/set/int_set.go:35-49 | the set loses exactly the value of the slot |
| `IntSet.IntSet.Add` | datastruct/set/int_set.go:80-108 | the set gains the value, the result says whether it was new, and the encoding is the wider of the old and the required one |
| `IntSet.IntSet.UpgradeEncoding` | datastruct/set/int_set.go:111-125 | all values stay; the recursion with Add terminates |
| `IntSet.IntSet.ToSlice` | datastruct/set/int_set.go:128-134 | the values in order |
| `IntSet.IntSet.Contains` | datastruct/set/int_set.go:52-55 | membership |
| `IntSet.IntSet.Remove` | datastruct/set/int_set.go:25-32 | the set loses the value, and the result says whether it was there |
| `IntSet.IntSet.Len` | datastruct/set/int_set.go:75-77 | the number of values |
| `IntSet.RunOps` | datastruct/set/int_set.go:25-125 | for every sequence of additions and removals every answer is that of a mathematical set, and the values come out strictly sorted |
| `HashSet.HashSet.constructor` | datastruct/set/hash_set.go:23-29 | a new set is empty and an integer set |
| `HashSet.HashSet.Add` | datastruct/set/hash_set.go:32-53 | the set gains what it takes the member for; it is the member itself if and only if the set is a hash table, the member is no integer, or it is canonical; the mode afterwards follows from member and size |
| `HashSet.HashSet.Contains` | datastruct/set/hash_set.go:56-66 | membership of what the member is taken for, and when that is membership of the member |
| `HashSet.HashSet.Remove` | datastruct/set/hash_set.go:149-164 | the set loses what it takes the member for, and when that is the member |
| `HashSet.HashSet.Len` | datastruct/set/hash_set.go:84-89 | the number of members in both modes |
| `HashSet.HashSet.Members` | datastruct/set/hash_set.go:92-108 | every member exactly once in both modes |
| `HashSet.HashSet.ConvertToHashTable` | datastruct/set/hash_set.go:167-178 | the members stay |
| `Values.WithExactly` | datastruct/set/hash_set.go:32-66 | adding, finding and removing a member treat it as itself if and only if the mode takes it for itself (or, for the last two, it is not found) |
| `Values.ModeExactly` | datastruct/set/hash_set.go:32-53 | an integer set stays one if and only if an integer is added and there are at most 512 members; removing changes no mode |
| `HashSet.RunOps` | datastruct/set/hash_set.go:32-164 | for every sequence of operations with non-integers and canonical decimals every answer is that of a mathematical set of strings, across both conversions |
| `HashSet.SevenAndItsZeros` | datastruct/set/hash_set.go:32-53 | "007" added behind "7" is there already in an integer set and new in a hash table |
| `Pouring.OrderFreeExactly` | database/set.go:317-320 | a set poured into a new HashSet gives the same in every order if and only if no text such as 007 can come late: all other members are integers, and at most 512 |
| `Pouring.OneOutcomeExactly` | database/set.go:303-354 | the same for several sources poured one after the other, and the result poured once more |
| `Pouring.TwoOrders` | database/set.go:317-320 | x and 007 give the set of x and 007 in one order and the set of 7 and x in the other |
| `Values.FaithfulPour` | datastruct/set/hash_set.go:32-53 | members that are no integers or canonical decimals give the same set in every order, with the mode that their number and kind give it |
| `Wildcard.Contains` | lib/wildcard/wildcard.go:24-53 | a bracket item accepts its bytes, the bytes between its least and greatest, or all others |
| `Wildcard.MatchExactly` | lib/wildcard/wildcard.go:114-156 | the recursive relation holds exactly when the key can be divided into one stretch for each item |
| `Wildcard.CellNext` | lib/wildcard/wildcard.go:127-154 | the recurrence of the table |
| `Wildcard.IsMatch` | lib/wildcard/wildcard.go:114-156 | the table decides exactly whether the key can be divided into stretches that fit the items |
| `Wildcard.CompilePattern` | lib/wildcard/wildcard.go:61-111 | the flag-driven loop computes the fold of the pattern |
| `Wildcard.CompileConcat` | lib/wildcard/wildcard.go:61-111 | a pattern with nothing left open followed by another has the items of both |
| `Wildcard.MatchesConcat` | lib/wildcard/wildcard.go:114-156 | items in sequence match exactly the keys that can be cut in two matching parts |
| `Wildcard.QuotedMatchesItself` | lib/wildcard/wildcard.go:68-76 | a text with every byte escaped matches that text and nothing else |
| `Wildcard.BareMatchesItself` | lib/wildcard/wildcard.go:98-104 | a text of bytes other than star, question mark, backslash and opening bracket matches that text and nothing else |
| `Wildcard.QuestionAndStar` | lib/wildcard/wildcard.go:71-74 | a question mark matches exactly the keys of one byte, a star all keys |
| `Wildcard.BracketMatches` | lib/wildcard/wildcard.go:77-97 | what a bracket of any bytes matches: the bytes in it; with a dash those between its least and greatest; with a caret all others |
| `Wildcard.StarInBracket` | lib/wildcard/wildcard.go:71-74 | a star in a bracket matches any stretch in front of the byte that the bracket stands for |
| `Wildcard.LeftOpen` | lib/wildcard/wildcard.go:75-83 | an open bracket and a backslash at the end stand for nothing |
| `Wildcard.PrefixPattern` | database/key.go:116-127 | a text and a star match exactly the keys that begin with the text |
| `Wildcard.RangePattern` | database/key.go:116-127 | a bracket range matches exactly the single bytes between its ends |
| `Wildcard.NegatedRangeExactly` | database/key.go:116-127 | a negated range rejects its whole range, as documented, if and only if nothing lies between its ends |
| `Ring.NodeMap.constructor` | lib/consistent_hash/consistent_hash.go:15-26 | a new ring is valid and empty |
| `Ring.NodeMap.IsEmpty` | lib/consistent_hash/consistent_hash.go:29-31 | whether any node counts |
| `Ring.NodeMap.AddNodes` | lib/consistent_hash/consistent_hash.go:34-46 | the sorted points and the names agree with all names given so far; empty names are passed over |
| `Ring.NodeMap.PickNode` | lib/consistent_hash/consistent_hash.go:49-63 | the node with the least clockwise distance from the key, the latest one at its point, or nothing on an empty ring |
| `Ring.OwnerUnique` | lib/consistent_hash/consistent_hash.go:49-63 | a key has one owner |
| `Ring.ClockwiseExactly` | lib/consistent_hash/consistent_hash.go:49-63 | the distance is the one that leads clockwise from the key to the node, modulo 2^32 |
| `Ring.PickedClockwise` | lib/consistent_hash/consistent_hash.go:49-63 | keys between two nodes, at a node and behind the last one, and two names at one point |
| `Ring.PickExists` | lib/consistent_hash/consistent_hash.go:49-63 | a ring with any node gives every key an owner |
| `Ring.AddingMovesKeysToTheNewNode` | lib/consistent_hash/consistent_hash.go:34-46 | adding a node leaves a key where it was or moves it to the new node |
| `Ring.OrderFreeExactly` | lib/consistent_hash/consistent_hash.go:34-46 | owners do not depend on the order in which the nodes are listed if and only if no two names meet at one point |
| `Ring.ForwardedOnce` | cluster/cluster_database.go:39-46 | two members that list the same names send every key to the same member, so a forwarded command is at home after one hop |
| `Relay.InStepExactly` | resp/client/client.go:89-99 | as many payloads as requests have come, with nothing half read, at every request up to the n-th, if and only if each earlier reply was exactly one payload |
| `Relay.InStepAnswers` | resp/client/client.go:68-99 | a request on a connection in step gets the first payload of its own reply: its data, the error text, or the time-out when there is none |
| `Relay.RequestArrives` | cluster/com.go:63-64 | of the lines that a parser can have sent, the other node receives exactly those without an empty argument in front of the last; its parser dies on any other |
| `Relay.ArrayCarried` | cluster/com.go:47-65 | an array of clean members arrives as sent, the empty array as a reply of another type, and the connection stays in step |
| `Relay.IntCarried` | cluster/com.go:47-65 | an integer reply arrives as sent, and the connection stays in step |
| `Relay.ErrorCarried` | cluster/com.go:47-65 | a one-line error reply arrives as sent, and the connection stays in step |
| `Relay.StatusCarried` | cluster/com.go:47-65 | a one-line status reply arrives as sent, and the connection stays in step |
| `Relay.BulkCarried` | resp/client/client.go:89-99 | a value that is not empty and does not begin with a dollar sign arrives as sent, line breaks included |
| `Relay.NullCarried` | resp/client/client.go:89-99 | the reply for an absent value arrives as sent |
| `Relay.EmptyBulkShifts` | resp/client/client.go:89-99 | the reply for an empty value is an error and a second, empty payload, so the connection is out of step behind it |
| `SetAlgebra.UnionIs` | database/set.go:303-329 | whatever the orders, for members that are never merged: on one node SUNION is the union, or an error when a source is no set |
| `SetAlgebra.InterIs` | database/set.go:358-412 | under the same proviso: on one node SINTER is the intersection; a wrong type is an error unless the sources in front have nothing in common |
| `SetAlgebra.DiffIs` | database/set.go:444-487 | under the same proviso: on one node SDIFF is the first source without the others |
| `SetAlgebra.OneSourceExactly` | database/set.go:358-412 | SINTER of one source gives its members in every order if and only if none of them can be merged |
| `SetAlgebra.UnionAgrees` | cluster/router.go:222-262 | the union over the nodes, with its own HashSet, is what one node answers when it goes through the sources in the same orders, for all sources |
| `SetAlgebra.InterExactly` | cluster/router.go:304-374 | for stored sources whose members are never merged: SINTER over the nodes agrees with one node if and only if there is one source, or one is absent locally in front of any wrong type, or no empty source is overlooked with effect |
| `SetAlgebra.DiffExactly` | cluster/router.go:419-475 | for stored sources whose members are never merged: SDIFF over the nodes agrees with one node if and only if its first source is present, or is absent locally with no wrong type behind it |
| `SetAlgebra.AbsentElsewhere` | cluster/router.go:304-475 | an absent source on another node is overlooked by SINTER and makes SDIFF fail |
| `SetCommands.ExecSUnion` | database/set.go:303-329 | on HashSets: the reply is what the sources poured into a new set in some orders give, and the union itself when no member can be merged |
| `SetCommands.ExecSInter` | database/set.go:358-412 | on HashSets: the reply is what the keeping and removing loops give for some order of the first source, and that of mathematical sets when no member can be merged |
| `SetCommands.ExecSDiff` | database/set.go:444-487 | on HashSets: the same for the removing loops |
| `SetCommands.ExecSUnionStore` | database/set.go:333-354 | what is stored is a possible outcome of pouring the sources, and nothing exactly when a source is no set; the reply is its size or the error |
| `SetCommands.ExecSInterStore` | database/set.go:416-440 | the answer poured once more is stored; nothing in common is passed on as the empty array and stores nothing |
| `SetCommands.ExecSDiffStore` | database/set.go:491-515 | the answer poured once more is stored; nothing left replies 0 and stores nothing |
| `StoreForms.UnionStoreExactly` | cluster/router.go:266-300 | SUNIONSTORE over the nodes leaves the same key space and reply as on one node if and only if the union is not empty (or is an error) and the SADD for another node gets through |
| `StoreForms.InterStoreExactly` | cluster/router.go:378-415 | SINTERSTORE over the nodes does what one node does if and only if SINTER is right, finds something (or an error, or has one absent source elsewhere), and the SADD gets through |
| `StoreForms.DiffStoreExactly` | cluster/router.go:479-516 | SDIFFSTORE over the nodes does what one node does if and only if SDIFF is right, the destination was absent when nothing is left, and the SADD gets through |
| `StoreForms.RouterStoreMeans` | cluster/router.go:266-300 | with members that are never merged: exactly the answer is stored and its size replied, nothing left removes the destination, and no other key changes |
| `StoreForms.NodeStoreMeans` | database/set.go:333-354 | the same on one node, where an empty answer is stored and the empty array leaves the destination |
| `Cluster.OneExists` | cluster/router.go:88-92 | whenever every key lies on its owner, the nodes together stand for one key space |
| `Cluster.OneUnique` | cluster/router.go:88-92 | and for only one |
| `Cluster.Cluster.constructor` | cluster/cluster_database.go:32-55 | an empty cluster, whose keys belong to their owners on the ring, stands for the empty key space |
| `Cluster.Cluster.PickNode` | cluster/cluster_database.go:39-46 | a member that lists the nodes in any other order sends every key to the same owner, when no two names collide |
| `Cluster.Cluster.DefaultFunc` | cluster/router.go:88-92 | for every command on one key: a line that gets through changes the one key space as on one node, keys stay on their owners, and the reply is that of one node or the first payload of it; a line that is lost changes nothing and times out; a line without a key is the unknown-error reply |
| `Cluster.GetsThroughExactly` | cluster/com.go:63-64 | of the lines a parser can have sent, those get through that have no empty argument but the last |
| `Cluster.Cluster.SMembers` | database/set.go:125-149 | the members as the router sees them: an empty source of another node is a reply of another type |
| `Cluster.Cluster.DelFunc` | cluster/router.go:143-219 | the keys go from the one key space and the count is that of one node, also with repeated keys; when the DEL for the node of the empty key is lost, its keys stay and the reply is an error |
| `Cluster.LosesExactly` | cluster/router.go:163-200 | that is so if and only if the empty key belongs to another node and stands in front of another key of the same node |
| `Cluster.Cluster.RenameFunc` | cluster/router.go:105-121 | within one node the RENAME of the one key space, across nodes refused with nothing changed; an empty source name on another node times out |
| `Cluster.Cluster.SetUnion` | cluster/router.go:222-262 | replies with what one node answers for the orders of the replies, and with the union itself when no member can be merged |
| `Cluster.Cluster.SetIntersect` | cluster/router.go:304-374 | the reply cannot be told from that of one node if and only if the condition of InterExactly holds |
| `Cluster.Cluster.SetDiff` | cluster/router.go:419-475 | the reply cannot be told from that of one node if and only if the condition of DiffExactly holds; otherwise it is the unknown-error reply or a type error |
| `Cluster.Cluster.SetUnionStore` | cluster/router.go:266-300 | stores the union poured once more, or removes the destination when it is empty, and replies its size; an error changes nothing; a lost SADD leaves the destination deleted |
| `Cluster.Cluster.SetIntersectStore` | cluster/router.go:378-415 | the same for what SINTER over the nodes answers when that is an array; anything else is passed on and changes nothing |
| `Cluster.Cluster.SetDiffStore` | cluster/router.go:479-516 | the same for what SDIFF over the nodes answers |

## Left out

- The TCP server, connections, logger, configuration, the connection pool and its timeouts: input and output.
- FLUSHDB in a cluster: every peer that receives the broadcast broadcasts again, so it is no single forwarded step.
- List and hash commands, STRLEN, EXIST, TYPE, KEYS, the sorted-set queries and SINTERSTORE and SDIFFSTORE as concurrent commands: more members of the same kind.
- SPOP and the random selections: the choice is not in the log, so replay cannot repeat it.
- Dict.ComputeCapacity: says nothing above 2^32, where five smearing steps do not reach all bits; the constructor of the dictionary is modelled up to there.
- Dict.ConcurrentDict.Get: the locking and the lock-free form of each dictionary operation are one method, since the protocol module has the locks.
- DictScan.Scan: a dictionary of 2^31 keys or more, whose 32-bit counter has wrapped, is not covered.
- ZSet.ZSet.Add: scores are real numbers, without NaN and infinities, and the text with six decimals is a number of millionths rounded half to even; float64 rounding itself is not modelled.
- ZSet.ZSet.RangeByRank: in listpack encoding the order among equal scores is left open, as the source sorts unstably.
- Wire.LoggedLineIsTheCommand: names are lowered in ASCII only.
- Aof.AofHandler.HandleAof: every write succeeds, and the channel hands the commands over in the order in which they were queued.
- Aof.AofHandler.LoadAof: says nothing of the file when the parser panics or a malformed SELECT stops the loading; both are outcomes of their own.
- RoundTrip.ReceivedExactly: arguments longer than Go's int can count are excluded, and running out of memory on a huge announced length is left out.
- Wildcard.CompilePattern: takes the code points of the pattern; decoding UTF-8 is left out.
- IntSet.IntSet.Add: sets of 2^29 numbers or more, where 32-bit offsets would wrap, are excluded here and in InsertAt and RunOps; a HashSet never lets one grow beyond 513.
- LockProtocol.NoRunDeadlocks: Go's RW mutex is modelled by announcing, owning and reading; its fairness towards waiting readers is not.
- LockProtocol.MutualExclusion: when a table is replaced, a thread that waits for a mutex of the old one turns to the new one in the model and stays with the old one in the code; runs that replace no table have no such thread.
- Commands.SUnionMeaning: the orders of integer sets are left open like those of hash tables, although the code goes through those in ascending order; no result about orders depends on it, since integer sets hold canonical decimals only.
- Company.SafeExactly: asks that every database have keys in at least three shards, which HomeIsRoomy shows for the server's tables.
- TornLog.TornStarLosesOne: of the ways to go on behind torn bytes, the one with a torn first byte; elsewhere the bytes that follow are taken for the missing ones.
- Cluster.Cluster.DefaultFunc: the connections between nodes are in step, which Relay.InStepExactly says when they are; one database index at a time, and relays that reach the other node.
- Cluster.Cluster.SetUnion: sources on other nodes have members that are non-empty and do not begin with a dollar sign, as otherwise the reply is not one payload (RoundTrip.SentExactly); sources on the node itself may have any.
- Cluster.Cluster.SetIntersect: the comparison with one node is for stores without empty sets, which no routed command leaves behind, and for members that are never merged, since the router's maps merge nothing.
- Cluster.Cluster.SetDiff: the same.
- Cluster.Cluster.SetUnionStore: for a destination on another node the members sent are ones that a parser can have sent, and few enough for an array header of 32 bits; the same for the other store forms.
- The interleaving of routed commands of several clients between nodes: each routed command is one step.

# A verified model of the goredis storage engine

goredis is a small Redis-compatible server: a chained hash table, a keyspace with expiry and a memory budget on top of
it, the RESP wire protocol, an append-only command log and a checksummed snapshot format. This project models the
engine and its two formats and proves what they promise. Sockets, threads and file handles appear only as byte
sequences, chunk lists and schedules of steps.

The form follows the source. What the source updates in place is a class here: `HashTable.Table`, `Store.Store`,
`CommandParser.Parser`, `Aof.AofWriter`, `RdbFile.ByteWriter` and `RdbFile.ByteReader`. Each of their methods is tied
to a function of the old state, and the theorems are about those functions.

The main results, by part:

- **Table** (`Buckets`, `Layout`, `HashTable`, `TableRuns`). The buckets are a function of the edits made so far and
  represent their map; the capacity is a power of two linear in the size. In every run at most three nodes are
  relinked per call, and 3c/16 calls lie between a resize to capacity c and the next one.
- **Store** (`Keyspace`, `Stamps`, `Eviction`, `Store`, `Calls`, `StoreRuns`, `Account`). Any run of calls, sweeps,
  loads and budget changes ends in the state that the operations and the random draws determine. In it the byte account
  is the sum over all entries, the budget holds unless all attempts of the last sample hit empty buckets, and access
  stamps are distinct. A sample is the heads of the first buckets hit, in order, and each victim was the one least
  recent key among the first five. `Account` says in plain lengths what the operations of the class charge and give
  back, and `Stamps` that a key just used is the most recent one.
- **Concurrency** (`Atomic`, `Readings`, `Interleaving`, `Instants`). Sections read the clock key by key, as the source
  does. A sweep leaves nothing that was due before its first reading. Under every interleaving of first sections, deferred deletes and sweeper phases, no physical delete is ever
  visible, and all replies are those of an atomic map with deadlines, as long as no key that a call looks at runs out
  between two readings of its section. Otherwise EXISTS, KEYS and DEL may answer as of no instant at all; in which time
  spans they can is proved exactly.
- **Wire** (`Decimal`, `Resp`, `RespReader`, `CommandParser`, `ParserTheory`, `Framing`, `BlankLines`). Encoding is
  injective and prefix-free, and a reader written from the RESP2 grammar gets every value back. All chunkings of a stream of frames, lines and blank lines give the same commands exactly if no frame
  stands directly behind a blank line and no line is longer than 64 MiB. One kind of stream is excepted, and shown to
  be an exception: a frame of the one argument `*1` behind a blank line, followed by the line `$2` with CR LF.
- **Log** (`Aof`, `Dispatcher`, `Replay`, `InlineLog`, `Server`). Whatever the threads, the partial writes and the crash
  point, the log loads and holds exactly the whole frames. A server that crashes where the replies of write() say, and
  is restarted from its log, has the data of exactly the commands acknowledged before the crash.
- **Snapshots** (`Bitwise`, `Fnv`, `Rdb`, `RdbTheory`, `RdbFile`, `Persistence`, `SnapshotFile`, `KnownBytes`). Loading
  undoes saving and one changed byte anywhere is always detected; small files are spelled out byte by byte. If the two clocks are read at the same moment, deadlines are
  off by less than two milliseconds and never late; otherwise by the difference of the two delays on top.
- **Patterns and ranges** (`Glob`, `ListIndex`). The pattern loop is right on every pattern exactly for the texts
  without a star, and makes fewer trips than the product of the two lengths, each plus one; saturated list indices give
  the slice over unbounded integers.
- **Commands** (`Commands`, `ClientLaws`, `ClientWrites`). Every command as a client sees it, end to end: how its words
  are read, in any spelling, what it answers about the value that a key holds at the time, what it leaves behind, that
  it touches no key it does not name, and that it is logged exactly if it may change data and is not refused.

Where a promise fails, the code is kept as it is, a lemma gives the failing inputs, and another states exactly when the
promise holds: `Glob.ExactTexts`, `Glob.ExactPatterns`, `BlankLines.ChunkingExact`, `BlankLines.LineExact`,
`Resp.SimpleStringExact`, `Aof.LogLoadsExactly` with `InlineLog.TypedLineLogExact`, `Aof.TornExact`,
`Eviction.StallsOnMiss`, `Persistence.LoadAccountExact`, `Instants.ExistsExact`, `Instants.KeysExact`,
`Instants.DelExact`.

Bytes are integers from 0 to 255 and words are naturals below a power of two, with wrap-around written out. The load
comparisons on doubles are exact on the powers of two that occur, and appear as `4n > 3c` and `16n < 3c`. Clock
readings are parameters: as many in a section of the store as the source takes, and later ones for deferred deletes.
What the random generator gives is a parameter too: a bucket index per attempt, attempt by attempt and round by round.
Replies of write() are a list of outcomes, and running out of them is a crash.

## Model

| member | source | states |
|---|---|---|
| `Bitwise.MaskIsMod` | src/store/hash_table.h:280-282 | masking with a power of two minus one is the remainder by that power |
| `Bitwise.XorUndoes` | src/persistence/rdb.cpp:155-158 | exclusive or with a byte is its own inverse, which makes the hash step reversible |
| `Fnv.Fnv1a64` | src/persistence/rdb.cpp:150-160 | the loop computes the FNV-1a fold over all bytes from the offset basis |
| `Fnv.PrimeInjective` | src/persistence/rdb.cpp:155-158 | multiplying by the FNV prime modulo 2^64 loses nothing |
| `Fnv.StepInjective` | src/persistence/rdb.cpp:155-158 | one step is injective in the word for a fixed byte, and in the byte for a fixed word |
| `Fnv.FoldInjective` | src/persistence/rdb.cpp:150-160 | hashing on from two different words never meets again on the same bytes |
| `Fnv.OneByteChangesHash` | src/persistence/rdb.cpp:150-160 | strings that differ in exactly one byte never share a hash |
| `Buckets.IndexIsRemainder` | src/store/hash_table.h:280-282 | the masked bucket index is the hash modulo the capacity, and in range |
| `Buckets.PushRepresents` | src/store/hash_table.h:68-71 | prepending a node for a new key makes the buckets represent the map with it |
| `Buckets.ReplaceRepresents` | src/store/hash_table.h:53-59 | overwriting a value in its chain is the map update |
| `Buckets.UnlinkRepresents` | src/store/hash_table.h:128-137 | splicing a node out is removing its key from the map |
| `Layout.RehashRepresents` | src/store/hash_table.h:334-349 | moving every node to the bucket of its hash at any power of two keeps the map and the number of nodes |
| `Layout.AfterHolds` | src/store/hash_table.h:48-233 | whatever the history of edits, the buckets it leads to represent its map, with a load within the bounds |
| `Layout.ListingIsAll` | src/store/hash_table.h:147-173 | the bucket walk lists every entry exactly once |
| `Layout.HeadsAreEntries` | src/store/hash_table.h:193-221 | whatever is drawn, a sample holds only entries of the map |
| `Layout.EmptySample` | src/store/hash_table.h:193-221 | a sample is empty if and only if all twenty attempts per slot hit empty buckets |
| `Layout.HitsExact` | src/store/hash_table.h:211-219 | the hits are the attempts whose bucket holds something, all of them, in increasing order |
| `Layout.SampleIsFirst` | src/store/hash_table.h:193-221 | a sample has as many entries as there are hits among the first 20 * `count` attempts, up to `count`, and the j-th is the head of the j-th bucket hit |
| `HashTable.Relink` | src/store/hash_table.h:334-349 | the rehash loop computes the new buckets and moves each node exactly once |
| `HashTable.Table.constructor` | src/store/hash_table.h:26-47 | an empty table represents the empty map |
| `HashTable.Table.Set` | src/store/hash_table.h:48-79 | map update, tells whether the key was there; new buckets, capacity and number of moved nodes exactly |
| `HashTable.Table.Insert` | src/store/hash_table.h:66-79 | adding a new key; doubles, moving every node once, exactly when the load passes three quarters |
| `HashTable.Table.Resize` | src/store/hash_table.h:296 | twice the capacity, every node moved once, load back within the bounds |
| `HashTable.Table.Get` | src/store/hash_table.h:90-110 | the chain walk finds exactly the map's value, or nothing |
| `HashTable.Table.Assign` | src/store/hash_table.h:53-59 | writing through the found node is the map update |
| `HashTable.Table.Delete` | src/store/hash_table.h:125-140 | map removal, tells whether the key was there; new buckets, capacity and number of moved nodes exactly |
| `HashTable.Table.Remove` | src/store/hash_table.h:128-137 | unlinking a present key; halves, moving every node once, exactly when the rest is sparse |
| `HashTable.Table.MaybeShrink` | src/store/hash_table.h:317-326 | halves exactly when sparse and above the initial capacity, and then moves every node once |
| `HashTable.Table.RehashTo` | src/store/hash_table.h:334-349 | any capacity that is a power of two: same map, every node relinked once and counted |
| `HashTable.Table.Clear` | src/store/hash_table.h:230-233 | empty map at the initial capacity, nothing moved |
| `HashTable.Table.Entries` | src/store/hash_table.h:147-173 | Keys and ForEach visit every entry exactly once, in the order of the buckets |
| `HashTable.Table.SampleKeys` | src/store/hash_table.h:193-221 | the heads of the first `count` buckets hit among the first 20 * `count` attempts, in order; fewer only if there are fewer hits; nothing from an empty table |
| `TableRuns.CallPays` | src/store/hash_table.h:48-140 | three units per call pay for the nodes it moves and for the change of potential, whether it resizes or not |
| `TableRuns.GrowPays` | src/store/hash_table.h:75-77 | growing is paid for by the potential saved up |
| `TableRuns.ShrinkPays` | src/store/hash_table.h:317-326 | so is shrinking |
| `TableRuns.AllPaid` | src/store/hash_table.h:48-349 | after every operation of every run: load within the bounds, and moves and potential within three units per call |
| `TableRuns.Amortised` | src/store/hash_table.h:48-349 | the nodes moved in any run, summed from sizes and capacities alone, are at most three per Set or Delete |
| `TableRuns.ResizesAreSpaced` | src/store/hash_table.h:296-326 | any two resizes of any run without a Clear between them lie at least 3c/16 calls apart, c being the capacity after the first |
| `TableRuns.Exercise` | src/store/hash_table.h:48-349 | the table driven through any run: lookups and listing of the plain map, and exactly the capacity and the moves that the sums above are about |
| `Glob.GlobMatch` | src/server/dispatcher.cpp:86-108 | a true answer is a real match; if pattern or text has no star, the answer is exactly the declarative one |
| `Glob.Scan` | src/server/dispatcher.cpp:86-108 | the two loops terminate, compute the verdict of the cursor machine and make exactly its number of trips |
| `Glob.Quadratic` | src/server/dispatcher.cpp:83-85 | fewer trips than (text length + 1) times (pattern length + 1), for all patterns and texts |
| `Glob.Sound` | src/server/dispatcher.cpp:86-108 | no false positive on any bytes |
| `Glob.CompleteWithoutStars` | src/server/dispatcher.cpp:86-108 | remembering only the latest star loses no match when no star can be taken for a literal |
| `Glob.StarInText` | src/server/dispatcher.cpp:90-93 | every text with a star has a pattern that matches it and is turned down |
| `Glob.StarInPattern` | src/server/dispatcher.cpp:90-93 | every pattern with a star has a text that it matches and that is turned down |
| `Glob.ExactTexts` | src/server/dispatcher.cpp:86-108 | the loop is right for all patterns if and only if the text holds no star |
| `Glob.ExactPatterns` | src/server/dispatcher.cpp:86-108 | the loop is right for all texts if and only if the pattern holds no star |
| `Decimal.ParseUndoesPrint` | src/resp/command_parser.cpp:17-23 | parsing a printed integer gives it back exactly if it fits in 64 bits, and fails otherwise |
| `Decimal.ToDecimalInjective` | src/resp/resp_value.cpp:61-71 | different integers print differently |
| `Resp.EncodeValue` | src/resp/resp_value.cpp:54-83 | the switch with its array loop computes the recursive encoding |
| `Resp.Unambiguous` | src/resp/resp_value.cpp:54-83 | a stream determines its first value, nested or nil, and what follows it, if lines hold no line break |
| `Resp.SimpleStringExact` | src/resp/resp_value.cpp:56-57 | a simple string can be told from every other value if and only if it is one line |
| `RespReader.ReadsBack` | src/resp/resp_value.cpp:54-83 | at any place in a buffer, a reader that knows the tags `+ - : $ *`, decimal lengths and CR LF of RESP2 reads an encoded value back, nested or nil, and ends right behind it |
| `RespReader.ClientReads` | src/resp/resp_value.cpp:54-83 | so what a client reads first from the server is the value that was sent |
| `CommandParser.ReachesAgrees` | src/resp/command_parser.cpp:54-89 | the argument loop, stopped after any round, is where the recursive reading is |
| `CommandParser.CompleteHasName` | src/server/dispatcher.cpp:112-113 | every complete command has a first word for the dispatcher to read |
| `CommandParser.Parser.Feed` | src/resp/command_parser.cpp:27 | appends to the buffer |
| `CommandParser.Parser.TryParseCommand` | src/resp/command_parser.cpp:29-37 | result and remaining buffer are those of the reading function |
| `CommandParser.Parser.TryParseMultibulk` | src/resp/command_parser.cpp:39-94 | count line, limits and arguments; the buffer is touched only on success |
| `CommandParser.Parser.TryParseInline` | src/resp/command_parser.cpp:96-146 | first non-blank line, split at white space; blank lines are consumed on the way |
| `ParserTheory.FrameReads` | src/resp/command_parser.cpp:39-94 | an encoded command is read back whole if and only if it is within the limits, whatever follows; otherwise it is a protocol error |
| `ParserTheory.VerdictIsFinal` | src/resp/command_parser.cpp:39-94 | for a buffer that starts with a star, more bytes change neither Complete nor ProtocolError |
| `ParserTheory.TornFrame` | src/resp/command_parser.cpp:39-94 | every strict prefix of a frame is incomplete and stays untouched |
| `Framing.RequestReads` | src/resp/command_parser.cpp:29-146 | a frame or a line of words at the front is read as its command and only its bytes are consumed |
| `Framing.BlankReads` | src/resp/command_parser.cpp:104-141 | a blank line at the front is skipped, and what follows is read as text |
| `Framing.TornRequest` | src/resp/command_parser.cpp:29-146 | part of a frame, line or blank line is incomplete and stays untouched |
| `Framing.Serve` | src/server/tcp_server.cpp:222-242 | the receive, feed and drain loop computes the feeding function over the chunks |
| `Framing.DrainParser` | src/server/tcp_server.cpp:230-237 | the inner loop takes off all complete commands and leaves the rest |
| `Framing.DrainStream` | src/server/tcp_server.cpp:230-237 | whole requests come off the front, whatever follows them |
| `Framing.TornStream` | src/server/tcp_server.cpp:230-237 | a stream cut at any byte drains to its whole requests, with the torn one left in the buffer |
| `Framing.ChunkingIrrelevant` | src/server/tcp_server.cpp:222-242 | any chunking of a stream or of part of one gives what one piece gives |
| `Framing.EveryChunking` | src/server/tcp_server.cpp:222-242 | for every split of the bytes of any requests, none of them a frame behind a blank line, exactly their commands come out, in order |
| `BlankLines.FrameAsText` | src/resp/command_parser.cpp:104-141 | behind a blank line a frame's count line comes out as a command, and its body is read on its own |
| `BlankLines.Misread` | src/resp/command_parser.cpp:104-141 | so a blank line and any frame in one buffer, whatever follows, do not give the commands that were sent, save for the one exception |
| `BlankLines.ItemByItem` | src/server/tcp_server.cpp:222-242 | sent item by item, any frames, lines and blank lines give exactly their commands |
| `BlankLines.TooLongToWait` | src/resp/command_parser.cpp:107-113 | sent without its end, a line over 64 MiB anywhere in a stream is refused |
| `BlankLines.ChunkingExact` | src/resp/command_parser.cpp:104-141 | for every stream of frames, lines and blank lines without the exception: all chunkings agree if and only if no frame is directly behind a blank line and no line is over 64 MiB |
| `BlankLines.Coincidence` | src/resp/command_parser.cpp:104-141 | the exception is needed: a family of streams with a frame behind a blank line for which all chunkings agree |
| `BlankLines.LineExact` | src/resp/command_parser.cpp:107-113 | for a line that does not start with a star, all chunkings agree if and only if it is no longer than 64 MiB |
| `Aof.LoadFrames` | src/server/aof.cpp:71-100 | loading takes the commands of whole frames off a log, whatever follows |
| `Aof.LogLoadsExactly` | src/server/aof.cpp:71-100 | a log loads, with exactly its commands, if and only if all of them are within the parser's limits |
| `Aof.AofWriter.Append` | src/server/aof.cpp:32-69 | the bytes written and the return value, or the crash, are exactly those that the replies of write() determine |
| `Aof.WriteEnds` | src/server/aof.cpp:52-68 | without a failing reply the loop ends in the whole frame, or in a crash with part of it |
| `Aof.AppendIsSchedule` | src/server/aof.cpp:32-69 | an append with given replies of write() is a schedule of one thread's steps, with the same bytes in the file and the mutex free unless the process died |
| `Aof.StepKeepsSound` | src/server/aof.cpp:32-69 | every step of every thread keeps: whole frames in lock order, then part of the holder's frame |
| `Aof.RunIsSound` | src/server/aof.cpp:32-69 | the same for every schedule of any number of threads |
| `Aof.SoundLoads` | src/server/aof.cpp:71-100 | such a file loads to exactly the fully written commands |
| `Aof.CrashAnywhere` | src/server/aof.cpp:32-100 | stopped after any schedule, the log loads without failure to exactly the fully written commands |
| `Aof.CrashFrame` | src/server/aof.cpp:71-100 | a log cut inside its last frame loads without that command, a whole one with it |
| `Aof.LogIsLockOrder` | src/server/aof.cpp:32-69 | without write failures the commands stand in the order in which the lock was taken |
| `Aof.TornCount` | src/server/aof.cpp:52-64 | behind part of a frame, the first command read has the argument count of the torn one |
| `Aof.TornExact` | src/server/aof.cpp:52-64 | behind part of a frame every append is read back if and only if that part is empty |
| `Aof.TornThenAppend` | src/server/aof.cpp:52-64 | a torn frame can make the load replay a command that nobody sent |
| `InlineLog.JoinReads` | src/resp/command_parser.cpp:117-136 | splitting a line into words undoes joining any words with any blanks: spaces, tabs and the control bytes 11 to 13 |
| `InlineLog.LineReads` | src/resp/command_parser.cpp:96-146 | any number of words on a line, with any blanks before, between and behind them and with or without a CR, is read as one command, whatever follows |
| `InlineLog.TypedLineLogExact` | src/resp/command_parser.cpp:96-146 | a DEL of any number of words, typed as a line, is read, performed and logged, and the log that holds it loads if and only if the words keep to the limits of a frame |
| `InlineLog.TooManyWords` | src/resp/command_parser.cpp:48-51 | there is such a line with one word too many |
| `Atomic.DropIsInvisible` | src/store/store.cpp:40-49 | deleting a key found expired changes the live view neither then nor later |
| `Atomic.PushFrontReverses` | src/store/store.cpp:375-404 | LPUSH puts its values in front in reverse order |
| `Atomic.SetFieldsMeaning` | src/store/store.cpp:484-511 | HSET merges the pairs, later ones winning, and counts the fields that are new |
| `Atomic.DropFieldsMeaning` | src/store/store.cpp:536-572 | HDEL removes the named fields and counts those that were there |
| `Atomic.DropKeysMeaning` | src/store/store.cpp:206-226 | DEL removes the named keys and counts the distinct live ones |
| `Atomic.CountLiveMeaning` | src/store/store.cpp:228-249 | EXISTS counts every mention of a live key |
| `Atomic.SliceIsWindow` | src/store/store.cpp:455-475 | the slice of a list is its elements at the positions between the two that the indices point to, negative ones from the end |
| `Atomic.AnswerIsRead` | src/store/store.cpp:184-687 | for every query and every value or none: what the store answers is what the reference reads off the live map |
| `Atomic.ReadRefines` | src/store/store.cpp:184-204 | a read answers as the atomic map does, which reads its values by its own definitions, and leaves the live view alone |
| `Atomic.PushRefines` | src/store/store.cpp:322-427 | a push treats an expired list as absent and acts as on the atomic map |
| `Atomic.HSetRefines` | src/store/store.cpp:350-511 | the same for HSET |
| `Atomic.HDelRefines` | src/store/store.cpp:536-572 | the same for HDEL, which drops an emptied hash |
| `Atomic.ExpireRefines` | src/store/store.cpp:276-297 | EXPIRE moves the deadline, or deletes when no time is left |
| `Atomic.DelRefines` | src/store/store.cpp:206-226 | the same for DEL |
| `Atomic.SectionRefines` | src/store/store.cpp:163-687 | the first critical section of every call, on any table with any keys expired, is one step of the atomic map |
| `Readings.QuietSection` | src/store/store.cpp:36-687 | if no key that a call looks at runs out between two readings, its section is that of one instant, the last reading: state, reply and keys left to delete |
| `Readings.SweepExact` | src/store/store.cpp:69-78 | deleting by a list of keys, each at its own reading, removes exactly the listed keys that are due at one of their readings, and changes no other entry |
| `Readings.SweepLeaves` | src/store/store.cpp:51-79 | after a sweep a key is gone if it was due before all readings, and is as before if it was not due at any |
| `Readings.IsSwept` | src/store/store.cpp:51-79 | so no key due at a time before all readings is left, and every entry left is one that was there |
| `Readings.SweepAtOnce` | src/store/store.cpp:51-79 | at one instant the table becomes exactly the entries whose deadline has not come |
| `Instants.ExistsExact` | src/store/store.cpp:228-249 | all EXISTS within a time span count as of one instant of it if and only if no deadline passes in it |
| `Instants.KeysExact` | src/store/store.cpp:251-268 | KEYS within a time span always lists as of one instant if and only if its walk meets the keys that run out meanwhile latest deadline first |
| `Instants.DelExact` | src/store/store.cpp:206-226 | all DEL within a time span act as of one instant if and only if no two keys run out at the same moment of it |
| `Interleaving.DeletesAreInvisible` | src/store/store.cpp:40-79 | no deferred delete or sweeper step, of whichever thread and with whatever readings, changes the live view now or later |
| `Interleaving.StepShows` | src/store/store.cpp:40-79 | every step of the system is a step of the atomic map at its last reading, or none |
| `Interleaving.Linearizable` | src/store/store.cpp:40-687 | under every interleaving, with a reading for every key, every reply is that of the atomic map at the last reading of the call's first section |
| `Interleaving.LinearizableFromEmpty` | src/store/store.cpp:40-687 | the same from an empty store |
| `Stamps.SectionKeepsStamps` | src/store/store.cpp:117-119 | every call keeps stamps pairwise distinct and below the access clock |
| `Stamps.SectionByKeepsStamps` | src/store/store.cpp:117-119 | however often it reads the clock |
| `Stamps.RunKeepsStamps` | src/store/store.cpp:117-119 | so does every interleaving |
| `Stamps.PickVictim` | src/store/store.cpp:136-144 | the scan finds the first least recent entry of the sample |
| `Stamps.VictimIsUnique` | src/store/store.cpp:136-147 | it is the only key of the sample with that stamp |
| `Stamps.MostRecentIsSpared` | src/store/store.cpp:131-147 | the most recently touched key goes if and only if every slot of the sample is that key |
| `Stamps.UseIsRecent` | src/store/store.cpp:117-119 | a call that does not fail makes the live key it reads or writes the most recent of all and leaves every other stamp alone; DEL, EXISTS, KEYS, TTL and EXPIRE leave all stamps alone |
| `Keyspace.WalkFindsAll` | src/store/store.cpp:251-268 | sorting the bucket walk by expiry gives exactly the live and exactly the stale keys, each once |
| `Eviction.PassRemains` | src/store/store.cpp:121-150 | for every sampler a pass removes its victims and nothing else, and the account follows |
| `Eviction.StallsExactly` | src/store/store.cpp:121-150 | for every sampler a pass stalls if and only if it is still over the budget, entries are left and the next sample is empty |
| `Eviction.BudgetHolds` | src/store/store.cpp:121-150 | unless such a sample comes back empty, usage ends within the budget, or nothing is left but the bytes that a load counted twice |
| `Eviction.PassIsFair` | src/store/store.cpp:131-147 | in every round of every pass the victim is the one least recent key of its sample, and the latest key goes only from a sample of itself |
| `Eviction.VictimOfFive` | src/store/store.cpp:126-147 | the victim heads one of the first five buckets hit within a hundred attempts, and no other head among those is less recent |
| `Eviction.EveryPassChooses` | src/store/store.cpp:121-150 | every victim of every pass went while the account was over the budget, and was such a least recent head in the table of its own round |
| `Eviction.EveryPass` | src/store/store.cpp:121-150 | all of this for the bucket heads that any draws pick |
| `Eviction.StallsOnMiss` | src/store/store.cpp:126-131 | a pass leaves the store stalled if and only if it ends over the budget, with entries left, in a round that drew only empty buckets |
| `Store.EstimateEntryBytes` | src/store/store.cpp:97-115 | the loops compute the estimate that the account is made of (in plain lengths: the rows of `Account`) |
| `Account.ElementWeighs` | src/store/store.cpp:103-107 | one more element x, at either end, makes an entry heavier by its length and 16 |
| `Account.FieldWeighs` | src/store/store.cpp:108-112 | a new field by the lengths of field and value and 16, a present one by the difference of the values |
| `Account.Set` | src/store/store.cpp:163-182 | without a budget, SET of an absent key charges the lengths of key and value and 48, over a string the difference |
| `Account.Push` | src/store/store.cpp:375-427 | a push of one value charges its length and 16, and the length of the key and 48 if it creates the list |
| `Account.HSet` | src/store/store.cpp:484-511 | HSET of one field charges field, value and 16, or the difference of the values, and key and 48 for a new hash |
| `Account.HDel` | src/store/store.cpp:536-572 | HDEL of a field gives that back, of the last field the whole entry |
| `Account.SetThenDel` | src/store/store.cpp:163-226 | SET of an absent key and then DEL leave table and account as they were |
| `Store.Store.constructor` | src/store/store.cpp:23-25 | an empty store without a budget |
| `Store.Store.Discard` | src/store/store.cpp:43-45 | removing an entry takes exactly its bytes off the account, without underflow |
| `Store.Store.Place` | src/store/store.cpp:166-177 | storing an entry moves the account from what was there before, and stamps it |
| `Store.Store.TouchEntry` | src/store/store.cpp:117-119 | a touch stamps with the next tick and costs no bytes |
| `Store.Store.EvictIfOverBudget` | src/store/store.cpp:121-150 | the state is that of the pass determined by the draws, with its victims, budget and fairness as proved of it; each victim went over the budget and was the least recent of five |
| `Store.Store.EvictOne` | src/store/store.cpp:126-148 | one round picks a least recent head of the first five buckets hit, and none exactly if no attempt hits one |
| `Store.Store.SetMaxMemory` | src/store/store.cpp:152-156 | sets the budget and evicts exactly as the draws determine |
| `Store.Store.Set` | src/store/store.cpp:163-182 | overwrites any value and deadline, then evicts exactly as the draws determine |
| `Store.Store.Ensure` | src/store/store.cpp:322-373 | an absent or expired key becomes an empty list or hash |
| `Store.Store.Push` | src/store/store.cpp:375-427 | the push section, or wrong type and no change; then evicts exactly as the draws determine |
| `Store.Store.HSet` | src/store/store.cpp:484-511 | the HSET section, or wrong type and no change; then evicts exactly as the draws determine |
| `Store.Store.HDel` | src/store/store.cpp:536-572 | the HDEL section; the account does not grow |
| `Store.Store.Expire` | src/store/store.cpp:276-297 | the EXPIRE section, checking at one reading and counting from the next; the account does not grow |
| `Store.Store.Del` | src/store/store.cpp:206-226 | the loop removes all the keys and counts those live at their own readings |
| `Store.Store.FlushAll` | src/store/store.cpp:270-274 | empty table, account zero |
| `Store.Store.DeleteIfExpired` | src/store/store.cpp:40-49 | true if and only if the key was there with its deadline come, and if and only if it was there before and is gone now; no other entry changes |
| `Store.Evaluate` | src/store/store.cpp:455-475 | the answer of a read, LRANGE in the arithmetic of a 32-bit int (what it means: `Atomic.AnswerIsRead`) |
| `Store.Store.Read` | src/store/store.cpp:184-204 | every single-key read: answer and touch of the first section, then the deferred delete; a key found expired, and still expired at the delete, is gone |
| `Store.Store.Ttl` | src/store/store.cpp:299-320 | minus two, minus one or the seconds left at the second clock reading, rounded from milliseconds |
| `Store.Store.Exists` | src/store/store.cpp:228-249 | the count, every key at its own reading, then the deferred deletes |
| `Store.Store.Keys` | src/store/store.cpp:251-268 | exactly the keys live at their own readings, in the order of the walk; then the deferred deletes of exactly the others |
| `Store.Store.SweepExpired` | src/store/store.cpp:51-79 | finds exactly the keys expired at their own readings and deletes those still expired at their second ones; nothing due before the first reading is left, nothing not due at the last is touched, and the account falls by what went |
| `Store.Store.Snapshot` | src/store/store.cpp:690-723 | every key live at its own reading once, with its value and its deadline on the wall clock |
| `Store.Store.LoadEntries` | src/store/store.cpp:725-755 | replaces everything by the entries still due; the account takes every stored entry |
| `Store.Store.LoadSnapshot` | src/store/store.cpp:725-759 | the entries still due, the bytes counted twice, then the eviction that the draws determine |
| `Calls.NoBudget` | src/store/store.cpp:121-124 | without a budget every call is its sections alone: nothing is evicted |
| `Calls.QuietInvoke` | src/store/store.cpp:36-687 | a whole call, if quiet, is the call of one instant, evictions included |
| `Calls.ExecuteRead` | src/server/dispatcher.cpp:165-406 | the store's reads are the model's with every clock reading, deferred deletes included |
| `Calls.ListKeys` | src/store/store.cpp:251-268 | KEYS lists every key it finds live exactly once, whatever the readings |
| `Calls.ExecuteRemoval` | src/server/dispatcher.cpp:182-406 | so are DEL, EXPIRE and HDEL |
| `Calls.ExecuteGrowth` | src/server/dispatcher.cpp:140-406 | so are SET, LPUSH, RPUSH and HSET, with the eviction that the draws determine |
| `Calls.Execute` | src/server/dispatcher.cpp:112-406 | every call on the store has the reply and the state of the model, for any clock readings, budget and draws |
| `StoreRuns.NextGood` | src/store/store.cpp:40-759 | every call, sweep, load and budget change keeps stamps distinct and below the clock |
| `StoreRuns.RunGood` | src/store/store.cpp:40-759 | so does every run, in each of its states |
| `StoreRuns.NoSurplus` | src/store/store.cpp:752-754 | if the loads of a run store their keys once, no byte is counted twice at any time |
| `StoreRuns.RunIsFair` | src/store/store.cpp:121-150 | every pass of every run removes, round by round and only over the budget, the one least recent key of the first five bucket heads drawn, and nothing else; it stalls the store if and only if it ends in a round of misses |
| `StoreRuns.NeverStalled` | src/store/store.cpp:126-131 | if no pass of a run ends in a round of misses, the run is never stalled |
| `StoreRuns.Step` | src/store/store.cpp:40-759 | every call, sweep, load and budget change takes the store to the next state of the run |
| `StoreRuns.Exercise` | src/store/store.cpp:40-759 | the store driven through any run ends in the run's state; there stamps are distinct and, if loads stored their keys once, the account is exact, and within the budget if no pass ended in a round of misses |
| `ListIndex.MachineSliceIsSlice` | src/store/store.cpp:462-475 | for all 64-bit indices and lists up to INT_MAX, saturating, normalising and clamping in int gives the slice over unbounded integers |
| `ListIndex.SliceElements` | src/store/store.cpp:455-475 | which elements a range holds: with both ends brought into the list, their number and each of them by position |
| `ListIndex.ClampIsHarmless` | src/server/dispatcher.cpp:289-302 | saturating 64-bit indices to int changes no range of a list up to INT_MAX |
| `RdbTheory.WordReads` | src/persistence/rdb.cpp:40-52 | a little-endian word of any width is read back |
| `RdbTheory.StringReads` | src/persistence/rdb.cpp:127-139 | a length-prefixed string below 2^32 bytes is read back |
| `RdbTheory.DeadlineReads` | src/persistence/rdb.cpp:302-317 | a deadline is read back, cut to whole milliseconds, before the epoch too |
| `RdbTheory.EntryReads` | src/persistence/rdb.cpp:172-203 | an encoded entry of any type is read back, and the cursor ends behind it |
| `RdbTheory.PayloadReads` | src/persistence/rdb.cpp:262-354 | a payload is read to its very end, keeping exactly the entries not expired |
| `RdbTheory.LoadUndoesSave` | src/persistence/rdb.cpp:164-358 | a saved file loads to exactly its entries that are not expired, in order |
| `RdbTheory.SameEntriesBack` | src/persistence/rdb.cpp:164-358 | with whole-millisecond deadlines after load time, to the very same entries |
| `RdbTheory.OneByteBreaksChecksum` | src/persistence/rdb.cpp:251-260 | changing one byte of a file with a right checksum, the checksum included, makes it wrong |
| `RdbTheory.OneByteIsRejected` | src/persistence/rdb.cpp:251-260 | no load accepts a saved file with exactly one byte changed |
| `KnownBytes.KnownHashes` | src/persistence/rdb.cpp:150-160 | the FNV-1a hashes of no bytes and of the letter a, as published |
| `KnownBytes.StringFile` | src/persistence/rdb.cpp:164-207 | the file of one short string, byte by byte: GRDB, version 2, count, key, type 0, no deadline, text, and the hash of all that |
| `KnownBytes.ListEntry` | src/persistence/rdb.cpp:172-203 | the bytes of an entry with a list of one element, type 1 |
| `KnownBytes.HashEntry` | src/persistence/rdb.cpp:172-203 | the bytes of an entry with a hash of one field, type 2 |
| `KnownBytes.DeadlineBytes` | src/persistence/rdb.cpp:182-187 | a deadline is a flag byte and eight bytes of milliseconds, lowest first |
| `KnownBytes.Limits` | src/resp/command_parser.cpp:39-94 | the limits of a frame in numbers: 1024 arguments of up to 67108864 bytes |
| `KnownBytes.TwoWordFrame` | src/server/aof.cpp:32-50 | the frame of two short words, byte by byte |
| `RdbFile.ByteWriter.WriteWord` | src/persistence/rdb.cpp:40-52 | the shift loop appends the little-endian bytes |
| `RdbFile.ByteWriter.WriteString` | src/persistence/rdb.cpp:54-57 | appends length and bytes |
| `RdbFile.ByteWriter.WriteEntry` | src/persistence/rdb.cpp:172-203 | appends key, type, deadline and content |
| `RdbFile.SaveRdb` | src/persistence/rdb.cpp:164-207 | the bytes put together are the file of the entries |
| `RdbFile.ByteReader.ReadWord` | src/persistence/rdb.cpp:92-116 | the word at the cursor, or failure at the end of the buffer |
| `RdbFile.ByteReader.Assemble` | src/persistence/rdb.cpp:96-101 | the shift-and-or loop adds up the bytes |
| `RdbFile.ByteReader.ReadString` | src/persistence/rdb.cpp:127-139 | the string at the cursor, or failure if it reaches beyond the buffer |
| `RdbFile.ByteReader.ReadStrings` | src/persistence/rdb.cpp:319-349 | the element loops read all strings or fail |
| `RdbFile.ByteReader.ReadEntry` | src/persistence/rdb.cpp:283-349 | one entry, or failure at the first unreadable part |
| `RdbFile.ByteReader.ReadEntries` | src/persistence/rdb.cpp:280-354 | all entries not expired, or failure; expired ones are read over |
| `RdbFile.LoadRdb` | src/persistence/rdb.cpp:243-354 | size, checksum, magic, version, count and entries, any failure refusing the file |
| `Persistence.RestoreAllMeaning` | src/store/store.cpp:725-755 | with distinct keys the restored table is exactly the entries still due |
| `Persistence.LoadAccountExact` | src/store/store.cpp:752-754 | the account after a load is never too low, and exact if and only if no stored key repeats |
| `Persistence.SaveThenLoad` | src/store/store.cpp:690-759 | save and load: every key comes back with value and round-trip deadline, except exactly those expired when looked at or no longer due |
| `Persistence.DeadlineDrift` | src/store/store.cpp:712-718 | a deadline moves by the difference of the delays between clock readings, less up to two milliseconds |
| `Persistence.NeverLater` | src/store/store.cpp:735-750 | with simultaneous readings it is never later and less than two milliseconds earlier |
| `SnapshotFile.SaveFile` | src/persistence/rdb.cpp:164-207 | the file of a snapshot of the store |
| `SnapshotFile.LoadFile` | src/persistence/rdb.cpp:235-358 | a refused file leaves the store as it was; an accepted one replaces everything |
| `SnapshotFile.AllSurvive` | src/persistence/rdb.cpp:164-358 | through a file, every key still due comes back and no other does |
| `SnapshotFile.SnapshotFits` | src/persistence/rdb.cpp:164-207 | if every length and deadline in the store fits its field, the snapshot fits the format |
| `SnapshotFile.SaveAndRestart` | src/main.cpp:105-135 | a store that fits the format, saved to a file and loaded into a new one: exactly the keys still due, with their values and deadlines |
| `Replay.WriteKeepsShape` | src/server/dispatcher.cpp:112-406 | a write's effect on typed values and on which keys have deadlines depends only on those |
| `Replay.UnloggedKeepsAll` | src/server/dispatcher.cpp:112-406 | reads and failed writes change no value and no deadline |
| `Replay.UnloggedCommand` | src/server/dispatcher.cpp:112-406 | a command that is not logged leaves the shape alone |
| `Replay.LoggedCommand` | src/server/dispatcher.cpp:112-406 | a logged command issued again at another time has the same effect on the shape |
| `Replay.ReplayRebuilds` | src/server/aof.cpp:71-100 | replaying the log of a sequential run, at whatever times, rebuilds typed values and the set of keys with deadlines |
| `Replay.LogPrefix` | src/server/dispatcher.cpp:112-406 | every prefix of the log is the log of a prefix of the run |
| `Replay.RestartAnywhere` | src/server/aof.cpp:71-100 | a log cut at any byte loads and rebuilds the state after some of the commands; a whole one, after all |
| `Replay.CrashFile` | src/server/aof.cpp:32-100 | a crash while logging a command loses at most that command |
| `Replay.AcknowledgedSurvive` | src/server/aof.cpp:32-100 | after such a crash the replay rebuilds exactly the commands before it, and the last one if its frame is whole |
| `Server.PerformsAlike` | src/server/dispatcher.cpp:112-406 | without a budget, performing a request on the store's state is the dispatcher's function |
| `Server.Perform` | src/server/dispatcher.cpp:112-406 | state, answer and whether to log, for any request, budget and draws; SET with EX as two store calls |
| `Server.Dispatch` | src/server/dispatcher.cpp:112-406 | the same for any reading of commands |
| `Server.Select` | src/server/dispatcher.cpp:206-212 | KEYS keeps exactly the keys that the pattern loop accepts, each once, in their order |
| `Server.RunsAlike` | src/server/aof.cpp:71-100 | without a budget, a run of the store is the run of the dispatcher's function |
| `Server.LoadAof` | src/server/aof.cpp:71-100 | true unless the parser fails; dispatches exactly the commands in the file, in order, for any budget and draws |
| `Server.ServeOne` | src/server/dispatcher.cpp:112-406 | for any budget and any replies of write(): what a command does to the store and to the log, and whether the process dies, is what draws and replies determine |
| `Server.AcknowledgedBefore` | src/server/aof.cpp:32-69 | every command before the crash was acknowledged with its whole frame synced, or was not to be logged |
| `Server.ServeCommands` | src/server/tcp_server.cpp:230-237 | the same for any run of commands, up to the first one during which the process dies |
| `Server.WhatIsLeft` | src/server/aof.cpp:32-69 | without a budget and without failing writes, the run ends at the first command whose replies run out, and the file is the log up to there and part of its frame |
| `Server.FileLoads` | src/server/aof.cpp:71-100 | the file left by a crash loads, to exactly the logged commands before it |
| `Server.CrashAndRestart` | src/main.cpp:90-104 | a server that crashes where the replies of write() run out, restarted from its log, has the data of exactly the commands before that point |
| `Commands.SetThenGet` | src/server/dispatcher.cpp:132-178 | SET answers OK and GET then finds the value at any time, in any spelling of the names |
| `Commands.SetExThenGet` | src/server/dispatcher.cpp:143-158 | SET with EX answers OK; the value is there until the deadline and not after it; with no seconds to live, never |
| `Commands.PushThenRange` | src/server/dispatcher.cpp:263-302 | RPUSH then LRANGE 0 -1: what was there, and the new values in order |
| `Commands.ReadsPing` | src/server/dispatcher.cpp:115-123 | the name PING in any mix of cases, and no other reading: answers PONG, or its argument; another number of words is refused |
| `Commands.ReadsEcho` | src/server/dispatcher.cpp:125-130 | the name ECHO in any mix of cases, and no other reading: answers its argument; another number of words is refused |
| `Commands.ReadsSet` | src/server/dispatcher.cpp:132-163 | the name SET in any mix of cases, and no other reading: three words, or five with EX and a 64-bit number; syntax error, bad number and wrong arity as the source words them; another number of words is refused |
| `Commands.ReadsGet` | src/server/dispatcher.cpp:166-178 | the name GET in any mix of cases, and no other reading: one key; another number of words is refused |
| `Commands.ReadsDel` | src/server/dispatcher.cpp:180-190 | the name DEL in any mix of cases, and no other reading: one key or more; another number of words is refused |
| `Commands.ReadsExists` | src/server/dispatcher.cpp:192-198 | the name EXISTS in any mix of cases, and no other reading: one key or more; another number of words is refused |
| `Commands.ReadsKeys` | src/server/dispatcher.cpp:200-214 | the name KEYS in any mix of cases, and no other reading: one pattern; another number of words is refused |
| `Commands.ReadsFlushAll` | src/server/dispatcher.cpp:216-225 | the name FLUSHALL in any mix of cases, and no other reading: no argument; another number of words is refused |
| `Commands.ReadsExpire` | src/server/dispatcher.cpp:227-254 | the name EXPIRE in any mix of cases, and no other reading: a key and a 64-bit number, or the error about it; another number of words is refused |
| `Commands.ReadsTtl` | src/server/dispatcher.cpp:256-261 | the name TTL in any mix of cases, and no other reading: one key; another number of words is refused |
| `Commands.ReadsLPush` | src/server/dispatcher.cpp:263-276 | the name LPUSH in any mix of cases, and no other reading: a key and one value or more; another number of words is refused |
| `Commands.ReadsRPush` | src/server/dispatcher.cpp:263-276 | the name RPUSH in any mix of cases, and no other reading: a key and one value or more; another number of words is refused |
| `Commands.ReadsLLen` | src/server/dispatcher.cpp:278-287 | the name LLEN in any mix of cases, and no other reading: one key; another number of words is refused |
| `Commands.ReadsLRange` | src/server/dispatcher.cpp:289-302 | the name LRANGE in any mix of cases, and no other reading: a key and two 64-bit numbers, saturated to int, or the error about them; another number of words is refused |
| `Commands.ReadsHSet` | src/server/dispatcher.cpp:304-324 | the name HSET in any mix of cases, and no other reading: a key and one pair or more; another number of words is refused |
| `Commands.ReadsHGet` | src/server/dispatcher.cpp:326-338 | the name HGET in any mix of cases, and no other reading: a key and a field; another number of words is refused |
| `Commands.ReadsHDel` | src/server/dispatcher.cpp:340-353 | the name HDEL in any mix of cases, and no other reading: a key and one field or more; another number of words is refused |
| `Commands.ReadsHGetAll` | src/server/dispatcher.cpp:355-370 | the name HGETALL in any mix of cases, and no other reading: one key; another number of words is refused |
| `Commands.ReadsHLen` | src/server/dispatcher.cpp:372-381 | the name HLEN in any mix of cases, and no other reading: one key; another number of words is refused |
| `Commands.ReadsHExists` | src/server/dispatcher.cpp:383-392 | the name HEXISTS in any mix of cases, and no other reading: a key and a field; another number of words is refused |
| `Commands.ReadsHKeys` | src/server/dispatcher.cpp:394-403 | the name HKEYS in any mix of cases, and no other reading: one key; another number of words is refused |
| `Commands.ReadsHVals` | src/server/dispatcher.cpp:394-403 | the name HVALS in any mix of cases, and no other reading: one key; another number of words is refused |
| `Commands.PairsAre` | src/server/dispatcher.cpp:304-324 | the i-th pair of an HSET is its words 2i and 2i + 1 behind the key |
| `Commands.WrongArgsText` | src/server/dispatcher.cpp:23-33 | the text of a refused number of words, with the name in lower case letter by letter |
| `Commands.UnknownCommand` | src/server/dispatcher.cpp:406 | a name that is none of the 22 is answered as unknown, in its own spelling |
| `Commands.LoggedExactly` | src/server/dispatcher.cpp:112-406 | a command goes to the log if and only if it is SET, DEL, FLUSHALL, EXPIRE, LPUSH, RPUSH, HSET or HDEL and is not answered with an error |
| `ClientLaws.GetReply` | src/store/store.cpp:184-204 | GET: the string held at the time, nil for nothing, an error for another type |
| `ClientLaws.LLenReply` | src/store/store.cpp:429-446 | LLEN: the length held, 0 for nothing, an error for another type |
| `ClientLaws.LRangeReply` | src/store/store.cpp:448-482 | LRANGE for all 64-bit indices: the elements between the two positions, empty for nothing, an error for another type |
| `ClientLaws.HGetReply` | src/store/store.cpp:513-534 | HGET: the value of the field, nil without field or key, an error for another type |
| `ClientLaws.HExistsReply` | src/store/store.cpp:622-639 | HEXISTS: 1 if the field is there, else 0, an error for another type |
| `ClientLaws.HLenReply` | src/store/store.cpp:603-620 | HLEN: the number of fields, 0 for nothing, an error for another type |
| `ClientLaws.HKeysReply` | src/store/store.cpp:641-662 | HKEYS: every field once |
| `ClientLaws.HValsReply` | src/store/store.cpp:664-687 | HVALS: the value of every field once |
| `ClientLaws.HGetAllReply` | src/store/store.cpp:574-601 | HGETALL: every field once with its value behind it |
| `ClientLaws.AbsentHash` | src/store/store.cpp:574-687 | these three: empty for nothing, an error for another type |
| `ClientLaws.ExistsReply` | src/store/store.cpp:228-249 | EXISTS: how many of the mentioned keys hold something, each mention counted |
| `ClientLaws.KeysReply` | src/server/dispatcher.cpp:200-214 | KEYS: exactly the keys that hold something and that the pattern loop accepts, once each |
| `ClientLaws.TtlReply` | src/store/store.cpp:299-320 | TTL: -2 for nothing, -1 without a deadline, else the whole second nearest to the time left, cut to milliseconds |
| `ClientWrites.OthersKept` | src/server/dispatcher.cpp:112-406 | no command changes what a key it does not name holds, now or later |
| `ClientWrites.SetLaw` | src/store/store.cpp:163-182 | SET answers OK, and the key holds the string from then on, whatever deadline it had |
| `ClientWrites.DelLaw` | src/store/store.cpp:206-226 | DEL answers how many of the keys, each counted once, held something; they hold nothing any more |
| `ClientWrites.FlushAllLaw` | src/store/store.cpp:270-274 | FLUSHALL answers OK, and no key holds anything |
| `ClientWrites.ExpireLaw` | src/store/store.cpp:276-297 | EXPIRE n: 1 if the key held something, else 0; it holds that until n * 1000000000 ns later and nothing after, and nothing at all for n <= 0 |
| `ClientWrites.ExpireThenTtl` | src/store/store.cpp:276-320 | a TTL before that moment is the nearest whole second to the time left, cut to milliseconds |
| `ClientWrites.RPushLaw` | src/store/store.cpp:406-427 | RPUSH answers the old length plus the number of values and leaves the old list with the values behind it, until its deadline |
| `ClientWrites.LPushLaw` | src/store/store.cpp:375-404 | LPUSH the same with the values in front, in the opposite order |
| `ClientWrites.PushThenLLen` | src/store/store.cpp:375-446 | LLEN after a push is the old length plus the number of values |
| `ClientWrites.HSetLaw` | src/store/store.cpp:484-511 | HSET answers how many fields are new and leaves the old fields overwritten by the pairs, until the deadline |
| `ClientWrites.HSetThenHGet` | src/store/store.cpp:484-534 | HGET of a field that an HSET names: the last value it gives the field |
| `ClientWrites.HSetKeepsField` | src/store/store.cpp:484-534 | HGET of another field: as before |
| `ClientWrites.HSetThenAsk` | src/store/store.cpp:484-639 | HEXISTS and HLEN after HSET: the old fields and the named ones together |
| `ClientWrites.HSetThenHGetAll` | src/store/store.cpp:484-601 | HGETALL after HSET: the merged fields, every one once with its value |
| `ClientWrites.HDelLaw` | src/store/store.cpp:536-572 | HDEL answers how many of the fields were there and leaves the others; a hash left empty is gone |
| `ClientWrites.HDelThenAsk` | src/store/store.cpp:536-639 | HEXISTS and HLEN after HDEL: the old fields without the named ones |
| `ClientWrites.RefusedWrite` | src/server/dispatcher.cpp:263-353 | LPUSH, RPUSH, HSET or HDEL on a value of another type is refused, and no key changes |

## Left out

- Sockets, accept and shutdown, and sending replies: foreign calls; the chunk list stands for the socket.
- fsync, rename, temporary files and disk errors other than a failing write(): the file is a byte sequence.
- Memory orderings and locks: each critical section is one atomic step. In particular two touches under the shared lock take effect one after the other.
- Second clock readings above the store: `Dispatcher`, `Replay`, `Commands`, `ClientLaws`, `ClientWrites` and `Server` take one reading per critical section, while EXPIRE, TTL, DEL, EXISTS, KEYS, the sweep and Snapshot take several (as modelled in `Store`, `Calls`, `StoreRuns` and `Interleaving`). `Calls.QuietInvoke` says that this is exact unless a key runs out meanwhile. SET reads no clock, so SET with EX has the readings of its EXPIRE only.
- BlankLines.ChunkingExact: leaves out streams in which a frame of the one argument `*1` stands behind a blank line and in front of the line `$2` with CR LF; there both readings of the bytes can coincide (see `BlankLines.Coincidence`).
- Interleaving.Linearizable: requires that no key a call looks at runs out between two readings of its section, which `Instants` shows to be needed.
- Node identity: chains are values owned by their bucket, so writing through the node that a lookup returns is `HashTable.Table.Assign`. Moved-from objects do not occur.
- The field table inside a hash value: a map here, since the table is proved to be one.
- How likely a sample is to be empty, and how good sampled eviction is: no probabilities; the draws are given.
- Order of HGETALL, HKEYS and HVALS replies: sets and maps, in any order; the RESP form of a reply fixes some order.
- Wrap-around of the access clock, of byte counts and of list lengths at 64 bits, and EXPIRE values that overflow the clock: unbounded integers.
- Log order against store order under concurrent clients: the source does not provide it; the replay results are for sequential runs.
- Server.WhatIsLeft: requires a store without a budget, because evictions are not logged and a replay does not repeat them, and no failing write(), because a log behind a torn frame is not recoverable (see `Aof.TornExact`).
- Server.CrashAndRestart: no failing write() and commands within the parser's limits (see `InlineLog.TypedLineLogExact`); the data are compared only if no deadline passes, because a replayed EXPIRE counts from the time of the replay.
- RdbFile.LoadRdb: a file with a right checksum and an absurd entry count makes the source throw while it reserves room for the entries; here the file is refused where its entries end.
- Account.Set: no budget, and a key that is absent or holds a string; in general the account is the sum over all entries, which `Store.Store.Valid` keeps.
- Account.Push: no budget, one value, and a key that is absent or holds a list without a deadline.
- Account.HSet: no budget, one field, and a key that is absent or holds a hash without a deadline.
- Account.HDel: one field that is there, in a hash without a deadline.
- Server.Dispatch: gives the answer as a value; its bytes are `Resp.EncodeValue`.
- Store.Evaluate: a list longer than INT_MAX is answered over unbounded integers, since the source narrows its length to int.
- ClientLaws.LRangeReply: lists longer than INT_MAX are left out, for the same reason as the next line.
- ListIndex.MachineSliceIsSlice: lists longer than INT_MAX are left out, since the source narrows their length to int.
- Resp.Unambiguous: requires simple strings and errors without CR LF, which `Resp.SimpleStringExact` shows to be necessary.
- RdbTheory.LoadUndoesSave: requires lengths below 2^32 and an entry count below 2^64, because the source writes them in words of that width.
- main, benchmarks and build files: nothing to prove.

# BYO-Redis: a verified model of the write path

BYO-Redis is a small Redis-like server: an in-memory store with expiry and eviction, an
append-only file (AOF), a binary snapshot format (RDB/BYOR), and master/replica replication
over RESP2. This project models the parts that have to agree with each other — store, log,
snapshot and replication stream — and proves that they do.

`dafny verify dfyconfig.toml` checks the whole project.

## How the model is built

| module | what it models |
|---|---|
| `ByteStrings`, `Resp`, `RespFraming`, `RespParser`, `RespEncoder`, `WireFormat` | bytes, decimal text, RESP2 values, the frame grammar, the parser object, the encoder loops, malformed input |
| `CommandLog`, `TornTail` | reading the AOF, crash cuts, appending after a torn tail |
| `Keyspace`, `Commands`, `Understanding`, `CommandLaws`, `LazyExpiry`, `TimedLog` | entries, how argvs are understood, command semantics at a given time, observable laws, lazy expiry, replay of timed logs |
| `Recency`, `Memory`, `MemoryLaws`, `Eviction`, `StoreObject`, `WritePath` | the store as heap objects: access clock, memory accounting, eviction, snapshots, the write barrier with rollback |
| `Snapshot`, `SnapshotProofs`, `SnapshotInverse`, `SnapshotCodec` | the BYOR format, its proofs in both directions, the dump and load loops |
| `AofRewrite`, `RewriteDrift`, `AofWriter`, `AppendOutcome`, `AofObject` | BGREWRITEAOF, the commands after it, the append queue as an interleaved machine and as one step of the master, the queue as an object |
| `Primary`, `PrimaryStreams`, `PrimaryConvergence`, `PrimaryDurability`, `LoggedCommands`, `TimelessLinks`, `Progress`, `Restart` | the master: write lock, AOF, replication links, rewrites and restarts as one machine of interleaved steps, what it keeps and what it can always still do |
| `MasterObject`, `Replica`, `FullSync` | the links as objects, the replica's reading side, the way from master store to replica store |

Three choices run through everything.

* **Values beside objects.** What the source mutates in place (parser buffer, store entries and
  their containers, links, queue items) is a class; each method is proved against a function on
  values, and the laws are proved about the functions. A keyspace is a map from keys to entries;
  wherever the source iterates a dict, the model takes any enumeration of it, so results hold for
  every order. Hashes keep their field order.
* **Interleaving.** `Primary.Step` lists the atomic steps (acquire, mutate, any
  command that is not a write, append, propagate,
  register, snapshot, take batch, write batch, disconnect, rewrite, clock, expiry …). Main results
  quantify over every finite sequence of enabled steps. An append to the AOF is one step there;
  `AofWriter` and
  `AppendOutcome` prove that the queue, writer task and fsync task make it so.
* **Time.** The clock is a parameter. Replaying a log at the master's times is exact even with
  deadlines (`ReplicasConverge`, `FileRebuildsStore`); without deadlines the times do not matter
  and the result is an equation (`…WithoutTtl`, `RestartRebuildsStore`).

## What turned out not to hold

* **Appending after a torn tail.** `read_commands` skips an incomplete tail, and its docstring
  speaks of truncating it, but the file keeps those bytes and is reopened for appending. The next
  command is readable if there was no tail and, unless an argument holds a `*` byte, only then
  (`TornTail.AppendReadableIffNoTail`; `TailOfStarsReadsBack` shows the exception). The durable-state results therefore start from
  a file without torn tail (`Primary.Init`).
* **Rewrites.** An entry that expires between the snapshot and the building of the program comes
  back with no deadline at all (`AofRewrite.ExpiredAtBuildIsResurrected`); the exact condition is
  `RewriteFaithfulIff`. A list or hash larger than the reader's array limit makes the rewritten
  log unloadable (`RewriteLoadableIff`). Deadlines move later by up to a second, and a push on a
  key in that second gives the file and the store different lists
  (`AofRewrite.PushBetweenDeadlines`). The file and the store differ in nothing but such fading keys,
  after every command, if and only if no command since the rewrite was an LPUSH, an HSET or a
  positive EXPIRE on a key gone from the store and still in the file's replay
  (`RewriteDrift.RewrittenFileStaysClose`, `HarmfulIsReviving`).
* **Large files.** The reader hands the whole file to a parser with a buffer of 32,000,000 bytes, so
  a log beyond that cannot be loaded although every command fits and the file limit is 1 GiB; two
  writes of 16 MB suffice (`CommandLog.FittingLogRefused`). The exact conditions are
  `CommandLog.ReadableIffFits`, `AofRewrite.RewriteLoadableIff` and `PrimaryDurability.FileLoadsIff`.
* **Commands that arrive with the end of the snapshot.** The replica feeds the bytes after the
  snapshot to its parser and drops the messages returned; exactly the frames complete in those
  bytes are lost (`Replica.LostIffCompleteInLeftover`).
* **Failed appends.** A write is applied before it is logged and is not rolled back when the
  append fails, so the master keeps a value that was answered with an error and that no replica
  will get (`PrimaryStreams.FailedAppendDiverges`). A replica connected at that moment agrees with
  the master if and only if the dropped commands change nothing visible
  (`PrimaryConvergence.ReplicasConvergeIff`); in the client's terms, if the write with its evictions
  left the live keyspace as it was (`FailedWriteDivergesIff`). A replica that syncs later is not
  affected. The same condition decides whether the file still rebuilds the store
  (`PrimaryDurability.FileRebuildsStoreIff`).
* **Negative deadlines** read back from a snapshot as no deadline (`RoundTripExactIff`). With a clock
  that starts at or after the epoch a link's snapshot has none (`FullSync.SnapshotArrives`).
* The comment in `ttl_seconds` promises at least 1 for a live key; the code answers 0 in the last
  second, and only then (`CommandLaws.TtlZeroIff`). The model follows the code.

## Model

| member | source | states |
|---|---|---|
| `ByteStrings.PyIntOfDecimal` | byo_redis/protocol/encoder.py:21-30 | every printed integer or length is read back by the parser's `int()` as the same number |
| `WireFormat.PyIntOfText` | byo_redis/protocol/parser.py:90-128 | the text of an integer: white space around, one optional sign, digits grouped by single underscores and nothing else; it means what the digits spell |
| `ByteStrings.FindCrlfStable` | byo_redis/protocol/parser.py:139-144 | the first CRLF found in a buffer stays the first one when more bytes arrive |
| `RespFraming.ParseStable` | byo_redis/protocol/parser.py:58-144 | a frame that is complete, or already a protocol error, is judged the same whatever bytes follow, at any nesting depth |
| `RespFraming.DrainSplit` | byo_redis/protocol/parser.py:42-49 | draining a stream equals draining a first part and then the left-over bytes with the rest; an error in the first part is an error of the whole |
| `RespFraming.ChunksFeedTheStream` | byo_redis/protocol/parser.py:33-49 | for a stream of any length and every split into chunks: messages, residue and error are those of the whole stream exactly if no single feed, with what was left over before it, exceeds the buffer limit; otherwise an error |
| `RespFraming.ChunkingIsInvisible` | byo_redis/protocol/parser.py:33-49 | for every stream within the buffer limit and every split into chunks: same messages, same residual buffer, error iff error |
| `RespFraming.ParseOfEncode` | byo_redis/protocol/encoder.py:25-79 | for every nested value of nulls, integers, byte strings and arrays, followed by anything: read back exactly with exactly its bytes consumed when within limits, otherwise a protocol error |
| `RespFraming.RepliesReadBack` | byo_redis/protocol/encoder.py:6-79 | any concatenation of value, simple-string and sanitised error replies reads back as one message per reply with nothing left over |
| `WireFormat.BulkAfterHeader` | byo_redis/protocol/parser.py:90-111 | a bulk header is null at -1, an error below that or over the limit, incomplete until content and line end are there, and an error when the line end is not CRLF |
| `WireFormat.ArrayAfterHeader` | byo_redis/protocol/parser.py:113-128 | an array header is an error at the depth limit, null at -1, an error below that or over the limit, empty at 0 |
| `WireFormat.LineFrames` | byo_redis/protocol/parser.py:58-88 | status, error and integer lines; an integer line that is no number is an error |
| `WireFormat.UnknownPrefix` | byo_redis/protocol/parser.py:58-88 | no other byte starts a frame |
| `WireFormat.ExampleReplies` | byo_redis/protocol/encoder.py:6-79 | the bytes of a null, an integer, an empty array, a status and a sanitised error |
| `WireFormat.ExampleCommand` | byo_redis/protocol/encoder.py:82-87 | the bytes of SET k v |
| `RespEncoder.EncodeValue` | byo_redis/protocol/encoder.py:46-69 | the recursive encoder produces the encoding the round trip is proved for |
| `RespEncoder.EncodeArray` | byo_redis/protocol/encoder.py:37-43 | the element loop produces header and elements in order |
| `RespEncoder.EncodeArgv` | byo_redis/protocol/encoder.py:82-87 | the argument loop produces the encoding of the command |
| `RespParser.RespParser.constructor` | byo_redis/protocol/parser.py:20-31 | an empty buffer with the given limits |
| `RespParser.RespParser.FeedBytes` | byo_redis/protocol/parser.py:33-49 | the object returns the messages and keeps the residue of the frame grammar; errors leave the buffer at the offending frame, oversized input leaves it unchanged |
| `RespParser.RespParser.TryParse` | byo_redis/protocol/parser.py:58-88 | parsing at an absolute cursor is the frame grammar on the rest of the buffer |
| `RespParser.RespParser.ParseArray` | byo_redis/protocol/parser.py:113-128 | array headers: depth limit first, then null, invalid and oversized counts |
| `RespParser.RespParser.ParseElements` | byo_redis/protocol/parser.py:129-137 | the cursor loop reads exactly the announced elements, stopping at the first incomplete or bad one |
| `CommandLog.ReadCommands` | byo_redis/persistence/aof.py:250-299 | the reader method computes ReadLog: size limit, parse, skip non-commands, null elements become empty |
| `WireFormat.LoggedMessage` | byo_redis/persistence/aof.py:277-299 | which messages the log reader takes as commands, and how nulls and status lines become arguments |
| `CommandLog.ParseOfCommand` | byo_redis/persistence/aof.py:263-268 | an encoded command is read as itself iff it fits the reader's limits |
| `CommandLog.CommandPrefixIncomplete` | byo_redis/persistence/aof.py:270-275 | every proper prefix of an encoded command is incomplete, never an error, whatever its argument bytes |
| `CommandLog.CrashCut` | byo_redis/persistence/aof.py:251-299 | for every log and every cut point the reader returns exactly the commands wholly before the cut |
| `CommandLog.ReadableIffFits` | byo_redis/persistence/aof.py:250-275 | a log, perhaps with an incomplete frame after it, is readable iff every command is within the reader's limits and the whole within its buffer and file limits, and then reads as its commands |
| `CommandLog.FittingLogRefused` | byo_redis/protocol/parser.py:20-39 | two fitting commands whose log is below the file limit and is refused for its size |
| `TornTail.AppendReadableIffNoTail` | byo_redis/persistence/aof.py:77-88 | after loading a log with an incomplete tail, an appended command reads back if the tail was empty, and without `*` in its arguments only if |
| `TornTail.TailOfStarsReadsBack` | byo_redis/persistence/aof.py:77-88 | a concrete tail and command with `*` in its argument that reads back intact |
| `TornTail.StarInFrame` | byo_redis/protocol/parser.py:58-137 | a command header inside a frame always shows in the frame's value (nested array or `*` byte) |
| `TornTail.ParsePrefix` | byo_redis/protocol/parser.py:58-137 | a complete frame depends only on the bytes it consumes |
| `Commands.RunKeepsWf` | byo_redis/storage/store.py:151-203 | every command keeps hash fields distinct and leaves no empty list or hash |
| `Commands.UnderstandSane` | byo_redis/commands/string_cmds.py:11-35 | accepted commands have positive EX, at least one element, at least one field |
| `Understanding.SetIff` | byo_redis/commands/string_cmds.py:11-35 | SET is accepted iff it has key, value and pairs of EX in any case with a positive integer; the last pair is the time to live |
| `Understanding.FirstBadOption` | byo_redis/commands/string_cmds.py:20-33 | the first pair that is not EX and a positive integer decides the error |
| `Understanding.SetWithTtlThenGet` | byo_redis/commands/string_cmds.py:11-44 | SET k v EX n, then GET k: the value iff less than n seconds have passed |
| `Understanding.KeyOf` | byo_redis/commands/list_cmds.py:22-28 | RPOP, GET, TTL and HGETALL are accepted iff exactly one argument follows, which is the key; DBSIZE iff none |
| `Understanding.ArgumentsOf` | byo_redis/commands/hash_cmds.py:10-28 | EXPIRE, LPUSH, HSET and DEL are accepted iff their arguments have the right number and kind, and which argument means what |
| `Understanding.OtherwiseInvalid` | byo_redis/commands/registry.py:35-42 | the error for each argv that is not accepted |
| `Understanding.WritesAreTheChangingCommands` | byo_redis/commands/base.py:61-71 | the names logged and propagated are exactly those of commands that can change what a client sees |
| `Commands.RunTtlFree` | byo_redis/storage/store.py:72-203 | without deadlines a command's reply and effect do not depend on the clock |
| `Commands.AddedFieldsIsGrowth` | byo_redis/storage/store.py:198-203 | the count HSET returns is the growth of the hash |
| `CommandLaws.SetThenGet` | byo_redis/storage/store.py:129-148 | GET returns what SET stored, exactly until the deadline |
| `CommandLaws.ExpireThenTtl` | byo_redis/storage/store.py:97-122 | EXPIRE keeps the key exactly until its deadline, TTL counts down to it, content and other keys untouched |
| `CommandLaws.TtlZeroIff` | byo_redis/storage/expiry.py:20-33 | TTL of a key with a deadline answers 0 exactly in its last second and -2 exactly once it has passed |
| `CommandLaws.TtlMeaning` | byo_redis/storage/expiry.py:20-33 | TTL is -2 iff the key is not live, -1 iff it has no deadline, else the whole seconds left |
| `CommandLaws.GetMeaning` | byo_redis/storage/store.py:141-148 | GET gives the string of a live key, nothing without one, WRONGTYPE otherwise |
| `CommandLaws.ExpireMeaning` | byo_redis/storage/store.py:97-106 | EXPIRE answers 1 iff the key is live and deletes it for a time that is not positive |
| `CommandLaws.DeleteCounts` | byo_redis/storage/store.py:72-85 | DEL answers the number of different live keys it was given |
| `CommandLaws.DbSizeAfterDelete` | byo_redis/storage/store.py:260-262 | DBSIZE counts the live keys, and DEL lowers it by its own answer |
| `CommandLaws.DbSizeAfterSet` | byo_redis/storage/store.py:260-262 | SET raises DBSIZE by one iff the key was not live |
| `CommandLaws.PopsInPushOrder` | byo_redis/storage/store.py:151-183 | LPUSH then repeated RPOP yields the elements in push order and then removes the key |
| `CommandLaws.PushThenPops` | byo_redis/storage/store.py:151-183 | on an absent or expired key, LPUSH of any elements then that many RPOPs returns them in push order |
| `CommandLaws.HSetLaw` | byo_redis/storage/store.py:198-203 | after HSET each field holds the last value written, or its old one |
| `CommandLaws.PutFieldLaw` | byo_redis/storage/store.py:199-202 | writing a field changes only that field and keeps the order of the others |
| `CommandLaws.HSetCountsNewFields` | byo_redis/storage/store.py:186-203 | HSET on an existing hash replies with the number of new fields |
| `CommandLaws.HSetThenList` | byo_redis/storage/store.py:186-217 | HGETALL after HSET on an absent key lists the fields and values in order |
| `CommandLaws.ListedFields` | byo_redis/storage/store.py:205-217 | HGETALL lists every field once with the value it holds |
| `CommandLaws.UpdatesInPlace` | byo_redis/storage/store.py:151-203 | LPUSH, RPOP and HSET keep the deadline and answer the new length, the popped element, the growth |
| `CommandLaws.WrongTypeChangesNothing` | byo_redis/storage/store.py:141-217 | on a key of another kind they answer WRONGTYPE and change nothing |
| `LazyExpiry.RunOnLive` | byo_redis/storage/store.py:72-126 | every command answers from the live view and acts on it, however many expired entries linger |
| `LazyExpiry.NonWriteChangesNothing` | byo_redis/server.py:419-435 | a command that is not logged and propagated changes nothing visible, whatever its arguments |
| `LazyExpiry.LazyRefinesEager` | byo_redis/storage/store.py:220-262 | over every run with a monotone clock the lazy store gives the eager store's replies and live view |
| `LazyExpiry.ExpiryStepsInvisible` | byo_redis/storage/store.py:220-247 | inserting any expiry steps anywhere changes no reply and no live view |
| `Recency.TouchLru` | byo_redis/storage/store.py:321-324 | touching a key keeps the clock injective and moves the key to the end of the recency list |
| `Recency.RemoveLru` | byo_redis/storage/store.py:249-258 | deleting a key keeps the clock a faithful recency list |
| `Recency.OldestIsHead` | byo_redis/storage/store.py:311-312 | the key with the least access value is the head of the recency list |
| `Memory.UsageWithout` | byo_redis/storage/store.py:276-291 | usage is the sum of entry costs in any order |
| `MemoryLaws.SetCost` | byo_redis/storage/store.py:280-284 | SET of a new key costs 64 bytes, its key and its value |
| `MemoryLaws.LPushCost` | byo_redis/storage/store.py:285-287 | LPUSH costs each element and 16 bytes, and 64 and the key when that is new |
| `MemoryLaws.HSetCost` | byo_redis/storage/store.py:288-290 | HSET of a new field costs its name, value and 32 bytes, of an old one the difference of the values |
| `Eviction.EvictedAreOldest` | byo_redis/storage/store.py:293-319 | every evicted key was touched before every survivor, and both together are the live keys |
| `Eviction.MetIffUnevictableFits` | byo_redis/storage/store.py:293-319 | the limit can be met iff what the policy may not remove is within it: everything under noeviction, the entries without deadline under volatile-ttl, nothing under LRU |
| `StoreObject.KeyEntry.Copy` | byo_redis/storage/types.py:24-31 | a copy with equal contents and no shared object |
| `StoreObject.Store.constructor` | byo_redis/storage/store.py:23-34 | an empty store |
| `StoreObject.Store.SetEntry` | byo_redis/storage/store.py:93-95 | stores the entry, most recently used, nothing else changed |
| `StoreObject.Store.Touch` | byo_redis/storage/store.py:249-258 | deletes an expired entry, otherwise moves a live one to the end of the recency list |
| `StoreObject.Store.SetString` | byo_redis/storage/store.py:129-139 | SET in place, including the deletion for a non-positive EX |
| `StoreObject.Store.Expire` | byo_redis/storage/store.py:97-106 | EXPIRE in place equals the value semantics; a surviving key becomes most recently used |
| `StoreObject.Store.LPush` | byo_redis/storage/store.py:151-165 | LPUSH on the shared deque equals the value semantics, WRONGTYPE included; the key becomes most recently used |
| `StoreObject.Store.RPop` | byo_redis/storage/store.py:167-183 | RPOP on the shared deque equals the value semantics, key removed with its last element, otherwise most recently used |
| `StoreObject.Store.HSet` | byo_redis/storage/store.py:186-203 | HSET on the shared dict equals the value semantics, WRONGTYPE included; the key becomes most recently used |
| `StoreObject.Store.Delete` | byo_redis/storage/store.py:72-85 | DEL removes all keys, counts the live ones and keeps the recency order of the rest |
| `StoreObject.Store.Sweep` | byo_redis/storage/store.py:220-238 | an expiry cycle removes exactly the expired sampled keys, counts them, and keeps the recency order of the rest |
| `StoreObject.Store.PurgeExpired` | byo_redis/storage/store.py:240-247 | a full purge leaves the live view |
| `StoreObject.Store.Snapshot` | byo_redis/storage/store.py:45-60 | deep copies of the live entries, all objects fresh, expired entries dropped from the store |
| `StoreObject.Store.LoadEntries` | byo_redis/storage/store.py:66-69 | the store becomes a fresh copy of the entries with a valid access clock |
| `StoreObject.Store.MemoryUsage` | byo_redis/storage/store.py:276-291 | purges and returns the sum of the entry costs |
| `StoreObject.Store.EnforceMemoryLimit` | byo_redis/storage/store.py:293-319 | terminates; succeeds iff what the policy may not remove is within the limit; every eviction was needed; LRU evicts the front of the live recency list; volatile-ttl takes the earliest deadline each time; noeviction evicts nothing |
| `WritePath.PerformRead` | byo_redis/storage/store.py:114-148 | GET, TTL and HGETALL on the object equal the value semantics; GET and HGETALL move a found key to the end of the recency list, TTL leaves the list alone |
| `WritePath.Perform` | byo_redis/commands/registry.py:35-55 | one command on the object is one step of the value semantics; every command but TTL moves its key to the end of the recency list |
| `WritePath.ExecuteWrite` | byo_redis/server.py:475-494 | error, OOM or success: OOM exactly if what the policy may not remove is over the limit, and then exactly the live keyspace from before even after partial evictions; success the command's effect minus evicted keys, each needed and chosen by the policy, within the limit |
| `WritePath.ReadThenWrite` | byo_redis/storage/store.py:293-319 | after a GET, a write that evicts the key under allkeys-lru has evicted every other live key but its own before |
| `WritePath.NoEvictionObeys` | byo_redis/server.py:475-494 | under noeviction the method's outcome is a step that obeys the memory limit in the sense of the restart results |
| `WritePath.WriteIsLoadStep` | byo_redis/server.py:226-240 | under noeviction the method's outcome is one step of the load path |
| `WritePath.SnapshotThenWrites` | byo_redis/storage/types.py:24-31 | a snapshot still shows its keyspace after any sequence of later writes and shares no object with the store |
| `WritePath.WriteIsMutate` | byo_redis/server.py:457-494 | the method's outcome is the Mutate step of the interleaved machine |
| `TimedLog.ReplayTimeless` | byo_redis/persistence/aof.py:302-317 | a log without deadlines rebuilds the same keyspace whatever the clock |
| `Snapshot.LittleEndianRoundTrip` | byo_redis/persistence/rdb.py:59-66 | little-endian packing and unpacking are inverse |
| `SnapshotProofs.RoundTrip` | byo_redis/persistence/rdb.py:79-188 | loading a dump gives the keyspace without entries expired on arrival: strings, list order, field order, absolute deadlines |
| `SnapshotProofs.RoundTripExactIff` | byo_redis/persistence/rdb.py:93-152 | the reload is exactly the live original iff no deadline is negative |
| `SnapshotProofs.AcceptedIsPrefixFree` | byo_redis/persistence/rdb.py:128-188 | no proper extension of an accepted snapshot is accepted, for any checksum function |
| `SnapshotProofs.DumpIsSelfDelimiting` | byo_redis/persistence/rdb.py:52-71 | every proper prefix and every proper extension of a dump is rejected |
| `SnapshotProofs.Version1LoadsTheSame` | byo_redis/persistence/rdb.py:141-187 | the version 1 form of a dump loads to the same keyspace |
| `SnapshotInverse.LoadIff` | byo_redis/persistence/rdb.py:128-188 | the loader accepts exactly the files of some records with magic, version 1 or 2, the right checksum in version 2 and the footer, up to the size limit, and returns what collecting the records gives |
| `SnapshotInverse.ChecksumIsChecked` | byo_redis/persistence/rdb.py:174-186 | an accepted version 2 file ends in the checksum of all bytes before it, and the footer |
| `SnapshotInverse.AlteredIsRejected` | byo_redis/persistence/rdb.py:174-182 | a dump whose body is replaced by one with another checksum is rejected |
| `SnapshotInverse.LastRecordWins` | byo_redis/persistence/rdb.py:148-173 | of several records of a key the last one not expired on arrival counts |
| `SnapshotInverse.ExampleBytes` | byo_redis/persistence/rdb.py:79-113 | a snapshot of one key, byte by byte |
| `SnapshotCodec.DumpRdbEntries` | byo_redis/persistence/rdb.py:79-113 | the dump loops write the format, failing exactly when a length or deadline does not fit |
| `SnapshotCodec.LoadRdbBytes` | byo_redis/persistence/rdb.py:128-188 | the load loops accept and return exactly what the format says |
| `AofRewrite.BuildRewritePayload` | byo_redis/persistence/aof.py:320-345 | the payload is the encoded rewrite program |
| `AofRewrite.RewritePreserves` | byo_redis/persistence/aof.py:320-345 | replayed from empty, the program rebuilds every non-empty entry; a live deadline never moves earlier and moves later by less than a second plus the delay |
| `AofRewrite.RewriteFaithfulIff` | byo_redis/persistence/aof.py:328-344 | keys, contents and presence of deadlines survive iff no container is empty and nothing is expired at build time |
| `AofRewrite.ExpiredAtBuildIsResurrected` | byo_redis/persistence/aof.py:340-344 | a key that expires between snapshot and build comes back without deadline |
| `AofRewrite.PushBetweenDeadlines` | byo_redis/persistence/aof.py:340-344 | a concrete push between an old deadline and its rewritten form after which store and file differ in content |
| `AofRewrite.RewriteLoadableIff` | byo_redis/persistence/aof.py:320-345 | the server reads back its rewrite iff every entry fits the reader's limits, whole lists and hashes included, and the whole fits its buffer and file limits |
| `RewriteDrift.ApplyFadesIff` | byo_redis/storage/store.py:72-203 | two keyspaces that differ in late deadlines and keys fading because of them: a command leaves them so iff it does not push, write fields or set a later deadline on a key that is only fading; both answer alike unless it looks at such a key or at a TTL |
| `RewriteDrift.HarmfulIsReviving` | byo_redis/persistence/aof.py:340-344 | with the second a rewrite costs, the harmful commands are exactly LPUSH, HSET and positive EXPIRE on a key gone from the store and still in the file's replay |
| `RewriteDrift.FadesLater` | byo_redis/storage/store.py:249-258 | passing time keeps the difference to fading keys |
| `RewriteDrift.ReplayFadesIff` | byo_redis/persistence/aof.py:302-317 | a log keeps the difference to fading keys after every command iff none of its commands is harmful |
| `RewriteDrift.RewriteThenCommands` | byo_redis/persistence/aof.py:320-345 | a rewritten log followed by any commands stands for the same keys and contents with only fading keys besides iff no command is harmful, and none is if LPUSH, HSET and EXPIRE leave each key alone just after its own compiled deadline |
| `RewriteDrift.RewrittenFileStaysClose` | byo_redis/server.py:632-643 | the same of the machine after any run up to the next rewrite; the live keys are equal whenever no key is in the second after its compiled deadline |
| `AofWriter.AppendIsAtomic` | byo_redis/persistence/aof.py:167-186 | an append that returns has added exactly its payload, one that raises a prefix of it |
| `AofWriter.EveryCutOccurs` | byo_redis/persistence/aof.py:138-143 | every length at which a write can be cut short occurs |
| `AofWriter.QueueNeverFull` | byo_redis/persistence/aof.py:180-186 | under the write lock at most one item is outstanding, so queueing never times out |
| `AofWriter.StoppedIsFinal` | byo_redis/persistence/aof.py:112-136 | once the writer has failed every waiter is answered and nothing is written again |
| `AofWriter.FailureIsFinal` | byo_redis/persistence/aof.py:152-172 | once the failure flag is set, by the writer or by the periodic fsync while the writer runs on, nothing more is accepted and at most the append already past the check still reaches the file |
| `AofWriter.SuccessIsDurable` | byo_redis/persistence/aof.py:100-124 | a successful completion means the payload is in the file in append order, and fsynced under `always` |
| `AofWriter.PeriodicSyncIsDurable` | byo_redis/persistence/aof.py:145-165 | under everysec a periodic fsync makes everything written before it durable |
| `AofWriter.SyncedIsKept` | byo_redis/persistence/aof.py:138-151 | what is in the file and on disk stays there |
| `AofWriter.AppendIsAnswered` | byo_redis/persistence/aof.py:100-124 | whoever waits for an append can get its answer by steps of the writer alone, and success when nothing has failed |
| `AppendOutcome.AppendIsOneStep` | byo_redis/persistence/aof.py:167-186 | an append that passed the check is AppendOk or AppendFail of the master, perhaps with a failed periodic fsync; file, health and outcome are those of queue and writer |
| `AppendOutcome.RejectedIsOneStep` | byo_redis/persistence/aof.py:171-172 | an append that does not pass the check is AppendFail with nothing written |
| `AofObject.AofLog.FailPending` | byo_redis/persistence/aof.py:126-136 | every waiter still queued is failed and the queue is empty |
| `AofObject.AofLog.WriterTurn` | byo_redis/persistence/aof.py:103-120 | one round of the writer: success completes the item, a failed write or fsync fails it and everything queued |
| `PrimaryStreams.PropagateKeepsLink` | byo_redis/replication/master.py:217-254 | a propagated command reaches an alive link last and once; an overflowing or broken link dies with what it had |
| `PrimaryStreams.SurvivesIffRoom` | byo_redis/replication/master.py:217-254 | in every reachable state a propagated command reaches exactly the alive links with room for it: backlog bytes while syncing, outstanding drains and a working connection once live; exactly the others die |
| `PrimaryStreams.StaysAliveIff` | byo_redis/replication/master.py:104-256 | over every step an alive link stays alive unless its connection is dropped or a propagated command finds no room |
| `PrimaryStreams.OffsetCounts` | byo_redis/replication/master.py:213-218 | the offset counts the bytes propagated while any replica is registered, and nothing else |
| `PrimaryStreams.ConnectionSteps` | byo_redis/replication/master.py:104-124 | a finished drain, a broken connection and unregistering touch only their own link and none of its payloads |
| `PrimaryStreams.StepKeepsLinks` | byo_redis/replication/master.py:104-256 | every step keeps every link's stream and counters exact |
| `PrimaryStreams.StreamsAreExact` | byo_redis/replication/master.py:143-256 | in every reachable state a link holds a contiguous stretch of the propagated commands from its snapshot on, all of them while alive, none before the snapshot; offsets and backlog bytes are exact, backlog and outstanding drains bounded |
| `PrimaryStreams.LiveReplicaOccurs` | byo_redis/replication/master.py:163-190 | a run with a live replica holding one propagated write exists, so the results below are not empty |
| `Progress.SyncCompletes` | byo_redis/replication/master.py:163-190 | from every reachable state an alive link with its snapshot can go live by steps of its own connection alone, everything propagated since on the wire and nothing else changed |
| `Progress.ReplicaCanJoin` | byo_redis/replication/master.py:126-190 | with the lock free a new replica can register and go live with a snapshot of the live store |
| `Progress.LockIsReleased` | byo_redis/server.py:419-428 | in every reachable state the holder of the write lock can release it |
| `Progress.WriteSucceeds` | byo_redis/server.py:438-529 | with the lock free and logging possible any write that is not an error can be applied, logged and propagated to the end |
| `Progress.RewriteCanRun` | byo_redis/server.py:632-643 | with the lock free a rewrite can run in any order of the entries and leaves health and live store as they were |
| `Progress.HealthyUntilFailure` | byo_redis/persistence/aof.py:72-75 | the log is healthy until an append or a periodic fsync fails |
| `Progress.FileGrowsByAppends` | byo_redis/persistence/aof.py:138-143 | between rewrites only appends touch the file, by at most the command at hand |
| `Progress.OnlyWritesShow` | byo_redis/server.py:438-529 | no step but a write changes what clients see, except that keys expire |
| `Progress.UnhealthyIsReadOnly` | byo_redis/server.py:457-466 | once the log is unhealthy and no write is under way, nothing is propagated and nothing visible changes over any run, except that keys expire |
| `PrimaryStreams.FailedAppendDiverges` | byo_redis/server.py:507-512 | after a failed append an alive, fully served replica can lack a key of the master |
| `PrimaryConvergence.WriteAgrees` | byo_redis/server.py:506-523 | the logged command and its eviction DELs do to any agreeing keyspace what the write did to the store |
| `PrimaryConvergence.StepKeepsConverging` | byo_redis/server.py:409-529 | every step keeps snapshot plus given commands plus what is owed or was dropped equal to the store |
| `PrimaryConvergence.ReplicasConvergeIff` | byo_redis/server.py:507-512 | with the lock free an alive link holds the master's live keyspace iff it was not connected when an append failed or what was dropped then changes nothing visible |
| `PrimaryConvergence.FailedAppendDivergesIff` | byo_redis/server.py:507-512 | at the failing step an alive link still agrees iff the dropped commands change nothing visible of what it holds |
| `PrimaryConvergence.FailedWriteDivergesIff` | byo_redis/server.py:475-512 | a write whose own append fails leaves an alive link agreeing iff the write with its evictions left the live keyspace as it was |
| `PrimaryConvergence.FailedEvictionDivergesIff` | byo_redis/server.py:513-523 | a failure at the DEL of an evicted key leaves an alive link agreeing iff it holds none of the keys whose DELs were dropped |
| `PrimaryConvergence.ReplicasConverge` | byo_redis/server.py:409-535 | with the lock free, replaying an alive link's commands onto its snapshot gives the master's live keyspace, evictions included, unless the link was connected when an append failed |
| `PrimaryConvergence.ReplicasConvergeWithoutTtl` | byo_redis/replication/master.py:146-190 | without deadlines the same is an equation for any apply times |
| `TimelessLinks.StepKeepsUntimed` | byo_redis/server.py:475-529 | while clients set no deadline no snapshot and no propagated command has one |
| `TimelessLinks.ReplicasConvergeOverRuns` | byo_redis/replication/master.py:146-190 | after any run in which clients set no deadline, every alive link that missed no failed append replays at any times to exactly the master's live keyspace |
| `PrimaryDurability.StepKeepsDurable` | byo_redis/server.py:475-529 | every step keeps the file an image of the store, up to what a failed append left out, and never corrupt |
| `PrimaryDurability.StepKeepsStands` | byo_redis/server.py:475-529 | between rewrites, deadlines or not, the commands logged since the last one lead from what it compiled to the store |
| `PrimaryDurability.RewrittenFile` | byo_redis/server.py:632-643 | right after a rewrite the file rebuilds the rewritten entries, deadlines late by less than a second plus the delay, and has the snapshot's shape iff nothing expired meanwhile |
| `PrimaryDurability.FileRebuildsStoreIff` | byo_redis/server.py:226-240 | replaying the file's commands rebuilds the live keyspace iff what a failed append left out of the file changes nothing visible; nothing is left out while the file is healthy |
| `PrimaryDurability.FileRebuildsStore` | byo_redis/server.py:226-240 | reading the file returns the logged commands and replaying them rebuilds the live keyspace, through failures, OOM answers, evictions and rewrites |
| `PrimaryDurability.FileLoadsIff` | byo_redis/persistence/aof.py:250-275 | in every reachable state, also after a half-written append, the file loads iff its commands fit the reader's limits and its size the buffer and file limits, and then yields exactly its whole commands |
| `LoggedCommands.FittingCommandsLoad` | byo_redis/persistence/aof.py:250-299 | when the commands sent, the DELs of evicted keys and the rewritten commands fit the reader's limits, the file loads after any run |
| `LoggedCommands.RunKeepsFaithful` | byo_redis/server.py:632-643 | only a rewrite that compiles an entry with a deadline takes the file's exact meaning away |
| `LoggedCommands.StepKeepsTimeless` | byo_redis/server.py:475-529 | while clients set no deadline no live entry, no logged command and no rewrite has one |
| `LoggedCommands.FileRebuildsStoreWithoutTtl` | byo_redis/server.py:632-643 | when clients set no deadline, reading the bytes of a healthy file and replaying the result at any times gives exactly the live store |
| `Restart.LoadRebuildsStore` | byo_redis/server.py:226-240 | deadlines included, the load path with purging and, under noeviction, the memory limit rebuilds the live keyspace at the master's times |
| `Restart.LoadTimeless` | byo_redis/server.py:226-240 | loading commands without deadlines does not depend on the clock |
| `Restart.RestartRebuildsStore` | byo_redis/server.py:226-240 | from an empty directory or a loaded file, clients setting no deadline, with no limit or noeviction: after any run, reading the bytes of a healthy file and loading the result at any times, with the same limit or none, gives exactly the live keyspace |
| `Restart.RestartIsAStart` | byo_redis/server.py:226-240 | the restarted server meets the assumptions of that result again, so it holds through any number of restarts |
| `Restart.EmptyStart` | byo_redis/server.py:226-240 | an empty data directory meets the assumptions of the restart result |
| `MasterObject.MasterReplication.RegisterSyncing` | byo_redis/replication/master.py:65-79 | a fresh syncing link at the current offset |
| `MasterObject.MasterReplication.Unregister` | byo_redis/replication/master.py:104-124 | the link is forgotten and dead, other links untouched |
| `MasterObject.MasterReplication.Propagate` | byo_redis/replication/master.py:206-256 | the loop gives every registered link exactly the machine's transition; exactly the links without room are dead and reported |
| `MasterObject.ReplicaLink.TakeBatch` | byo_redis/replication/master.py:165-174 | takes the whole backlog, or goes live at the master offset when it is empty |
| `Replica.ReadRdbBulk` | byo_redis/replication/replica.py:156-195 | for every split across parser buffer and reads the outcome is that of the concatenated stream |
| `Replica.FrameOfSnapshot` | byo_redis/replication/master.py:153-161 | what the master writes is framed as exactly the snapshot, the rest untouched |
| `WireFormat.SnapshotFrame` | byo_redis/replication/replica.py:156-195 | the snapshot's length must be a number from 0 to the limit, and the body is exactly that many bytes |
| `WireFormat.SnapshotFrameRefused` | byo_redis/replication/replica.py:156-180 | anything else in place of the header is refused |
| `Replica.ApplyMessages` | byo_redis/replication/replica.py:212-227 | commands are applied in order, non-commands skipped, a bad element stops after the commands before it |
| `WireFormat.ReplicatedMessage` | byo_redis/replication/replica.py:212-227 | which messages a replica takes as commands, ignores, or stops at |
| `WireFormat.BadMessageStops` | byo_redis/replication/replica.py:212-227 | a message with a bad element ends the batch after the commands before it |
| `Replica.LostIffCompleteInLeftover` | byo_redis/replication/replica.py:192-210 | the messages lost are exactly those complete in the bytes after the snapshot; nothing is lost iff there are none |
| `Replica.WholeCommandWithSnapshotIsLost` | byo_redis/replication/replica.py:192-194 | a command arriving whole with the end of the snapshot is never applied |
| `FullSync.SnapshotArrives` | byo_redis/replication/replica.py:150-152 | however the stream is cut, the replica loads exactly the link's snapshot without entries expired on arrival |
| `FullSync.DumpArrives` | byo_redis/replication/replica.py:150-152 | the same for any start clock, negative deadlines read as none |
| `FullSync.ReplicaReachesMaster` | byo_redis/replication/master.py:126-190 | framing, loading, parsing and applying the bytes of a caught-up link, however long, ends in the master's live keyspace when each read after the snapshot fits the parser's buffer |
| `FullSync.ReplicaReachesMasterWithoutTtl` | byo_redis/replication/master.py:126-190 | the same after any run in which clients set no deadline, for any apply times |

## Left out

- `PrimaryDurability.FileRebuildsStore`: after a rewrite of a keyspace with deadlines equality is false; `RewriteDrift.RewrittenFileStaysClose` says what holds instead.
- `FullSync.ReplicaReachesMaster`: stated for snapshots and commands without deadlines, because the replica re-times relative expiries and drops entries expired on arrival.
- `TornTail.AppendReadableIffNoTail`: for commands with `*` in their arguments only the direction from the empty tail; `TailOfStarsReadsBack` shows that the other fails.
- Eviction on the replaying or replica side: replay results are without memory limit, or with noeviction; unlogged reads move the LRU clock, so LRU replay is not determined by the log.
- Clock readings within one command: a command, with its purge and eviction, happens at one instant; the source reads the clock several times.
- Iteration order of the keyspace dict; the model allows any order, including any choice among equal deadlines.
- Python's limit of 4300 digits in `int()` and `str()`, and float rounding in the ceiling division of remaining milliseconds.
- UTF-8 decoding with replacement of simple strings: parsed values keep the raw line, and re-encoding is a function parameter.
- CRC32 is a parameter; every snapshot result holds for any checksum function.
- The handshake before the snapshot, including its parser reading the snapshot as an ordinary bulk string; reconnecting and backoff; chained replication.
- A connection resynchronising twice: connection ids are fresh, as the server hands them out.
- `register` for live replicas without full resync; the drain loop beyond its effect on the pending count.
- File system and fsync behaviour below the level of a written prefix; short writes that report success; a rewrite that fails to reopen the file.
- Loading a snapshot into a server whose AOF is on but empty: the file does not stand for the store until the next rewrite (`faithful` is false in `Primary.Init`).
- Replica-side AOF contents; BGSAVE scheduling; AUTH, client limits, INFO, CONFIG, PING, ECHO, SELECT, CLI and configuration.

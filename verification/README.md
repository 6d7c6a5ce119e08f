# Redis 2.4.15: data structures, codecs and persistence, verified

This project models the parts of the Redis 2.4.15 server in `webserver/redis`
that have the most intricate behaviour, and proves what they are meant to do, in
Dafny 4.11. `dafny verify dfyconfig.toml` checks everything.

Code that changes state in the source is a method or a class here, proved against
a function that says what it computes; what the source promises is then proved of
these functions, for all inputs and over whole runs.

- **LZF** (`Lzf*.dfy`): the stream format, the compressor for any contents of its
  hash table, the decompressor, and the round trip.
- **Partial quicksort** (`Pqsort.dfy`): Bentley and McIlroy's three-way partition
  that descends only into the parts that are wanted.
- **Dictionary** (`Dict*.dfy`): two tables and a cursor that always stand for one
  map, the bounded duration of a rehash, and iterators that survive changes.
- **Command parser** (`Decimal.dfy`, `Resp.dfy`, `Networking*.dfy`): the same
  commands however the stream is cut, for multi bulk and inline requests in any
  order, with the exact condition under which a legal stream is refused, and which
  bytes are errors.
- **Append only file** (`Aof*.dfy`): encoding, loading, rewriting, and the state
  machine of feeding, flushing, forking and swapping, with crash consistency over
  whole runs; `CheckAof.dfy` is the tool that repairs a log, `AofExact.dfy` which bytes
  it and the loader take for commands, and `AofCrash.dfy` what the tool leaves after a
  crash in the middle of a write.
- **Transactions** (`WatchIndex.dfy`, `Multi*.dfy`): WATCH with its two lists, what
  EXEC runs, told from the events alone in `MultiEvents.dfy`, and the brackets in the
  log; `ClientLog.dfy` follows a run of clients
  into the bytes of the log and back through the loader and the repair tool.
- **SHA-1** (`Sha1Spec.dfy`, `Sha1Vector.dfy`, `Sha1.dfy`): the standard's definition,
  its own example, and the streaming code with its 16-word schedule against it.
- **RDB strings** (`RdbString.dfy`, `Rdb.dfy`), **integer sets** (`Intset*.dfy`),
  **quoting** (`SdsRepr.dfy`, `SdsSplit.dfy`).
- **Expiry** (`Keyspace*.dfy`): stored keys past their deadline against a view in
  which they are gone, over runs on all databases of a server.
- **Background jobs** (`Bio.dfy`): every interleaving of the threads of one queue.

Some promises do not hold of the code as it is. Each is kept as the code has it,
with the condition under which it holds:

- the parser measures the whole buffer at `networking.c:819`
  (`NetworkingChunks.ChunkIndependent`, `NetworkingChunks.LargeArgumentTrips`);
- a rewrite revives keys past their deadline (`AofRewrite.RewriteLoads`,
  `AofRewrite.RewriteRevives`);
- the clock is read again when a relative expiry is logged (`AofLog.ClockDrift`,
  `AofLog.LateFeed`);
- SAVE, DEBUG RELOAD and DEBUG LOADAOF in a transaction can keep its EXEC out of
  the log (`MultiRuns.ClosesWhen`, `MultiRuns.SaveLeavesOpen`, `MultiRuns.LogBalanced`);
- FLUSHALL keeps the counter of changes in an `int` while it saves, and is itself
  lost to the log from 2^31 changes on (`MultiRuns.FlushAllCounts`);
- a SETEX is written as two commands, and a crash between them loses the deadline
  (`AofCrash.CrashAnywhere`, `AofCrash.TornSetex`);
- a rewrite that starts inside a transaction leaves a file that the repair tool cuts
  off at the EXEC (`AofCrash.ForkInside`);
- counts of 2^31 bytes and more do not fit the `int` of `rdb.c`, and the compressed
  form of such a string can be followed by a second copy (`Rdb.SaveAndLoad`,
  `Rdb.CountRight`, `Rdb.CountWraps`, `Rdb.StoredTwiceCase`); this is about the
  functions, whose lengths are `size_t`, for commands keep strings below 512 MB;
- DEL, EXPIRE, PERSIST and DBSIZE do not look whether a key is past its deadline
  (`KeyspaceRuns.InstantExpiry`, `KeyspaceRuns.LateDel`), and MOVE drops the deadline
  (`KeyspaceModel.MoveRefines`);
- the repair tool accepts commands without arguments that the loader refuses
  (`CheckAof.SoundLoads`, `CheckAof.EmptyCommand`).

## Model

| member | source | states |
|---|---|---|
| LzfCompress.Compress | webserver/redis/src/lzf_c.c:98-294 | For any contents of the hash table: no write leaves the outLen + 1 bytes of the buffer; a result n > 0 is at most outLen and the n bytes encode items that stand for the input; compression cannot fail when the buffer has room for the input and one byte in 32, nor, where the input ends in a run of equal bytes, when it has room for 33 bytes in 32 before the run, three in 264 of the run and 24 more, and the output never exceeds that |
| LzfCompress.Candidate | webserver/redis/src/lzf_c.c:147-166 | A table entry that passes the filters lies inside the input, at most 8192 bytes back, and the three bytes there are those at the current position, whatever the entry was before |
| LzfCompress.MatchLength | webserver/redis/src/lzf_c.c:168-209 | The unrolled search ends at a length of at most 264 for which every byte of the match is right, also where it runs past maxlen, and short of maxlen only at a byte that differs |
| LzfCompress.NextSlot | webserver/redis/src/lzf_c.c:48-53 | The slot of a position depends on its three bytes alone, whatever the rolling hash value held before |
| LzfDecompress.Decompress | webserver/redis/src/lzf_d.c:55-149 | Writes exactly what the decoding function gives, or returns 0 with its error; nothing behind the result is touched |
| LzfDecompress.CopyReference | webserver/redis/src/lzf_d.c:133-142 | The byte by byte copy of a reference that may overlap what it produces gives the periodic extension of the output |
| LzfDecompress.DecodeEncoded | webserver/redis/src/lzf_d.c:64-148 | Decoding the encoding of any valid items gives the bytes the items stand for, if they fit |
| LzfDecompress.DecodeSound | webserver/redis/src/lzf_d.c:64-148 | Conversely, whatever is decoded is what some valid items stand for, and the input is their encoding |
| LzfDecompress.EncodeInjective | webserver/redis/src/lzf_c.c:89-96 | A stream is the encoding of one list of items only |
| LzfBounds.LiteralsOnly | webserver/redis/src/lzf_c.c:89-96 | By the format alone: as far as no three bytes come back within 8192, every 32 bytes cost 33, in any stream for the text |
| LzfBounds.Incompressible | webserver/redis/src/rdb.c:104-118 | A text in which no three bytes come back within 8192 has no stream four bytes shorter than itself |
| LzfRoundTrip.RoundTrip | webserver/redis/src/lzf_c.c:98-294 | Compressing and then decompressing into a buffer of the size of the input gives the input, for every input of at least two bytes and any table |
| Pqsort.PartialSort | webserver/redis/src/pqsort.c:191-197 | Afterwards the array is a permutation of what it was; positions left to right are sorted, everything before is no greater and everything after no smaller |
| Pqsort.Partition | webserver/redis/src/pqsort.c:128-168 | The three-way partition permutes the segment into elements below, equal to and above the pivot, the middle part not empty, which is why the recursion ends |
| Pqsort.Scan | webserver/redis/src/pqsort.c:131-155 | The inner loops leave the equal elements at both ends and the smaller and larger ones between, and keep the elements |
| Pqsort.ScanUp | webserver/redis/src/pqsort.c:133-140 | The left cursor stops at an element above the pivot or past the right cursor, equal ones moved to the left end |
| Pqsort.ScanDown | webserver/redis/src/pqsort.c:141-148 | The right cursor stops at an element below the pivot or past the left cursor, equal ones moved to the right end |
| Pqsort.VecSwap | webserver/redis/src/pqsort.c:55-87 | Exchanges two blocks of equal length that do not overlap |
| Pqsort.InsertionSort | webserver/redis/src/pqsort.c:109-115 | Sorts a short segment and touches nothing else |
| Pqsort.Med3 | webserver/redis/src/pqsort.c:89-97 | Picks a position among three whose element is neither the only smallest nor the only largest |
| Pqsort.SliceAgreesWithSort | webserver/redis/src/pqsort.c:99-197 | Each wanted position holds an element that compares equal to the one a full sort of the same elements puts there |
| DictModel.AddKeeps | webserver/redis/src/dict.c:259-284 | After an add, with its expansion and migration step, the two tables represent the old map with the key, unless it was there; each key in one table, in the bucket its hash says |
| DictModel.ReplaceKeeps | webserver/redis/src/dict.c:289-310 | The same for replace: the map with the key overwritten |
| DictModel.DeleteKeeps | webserver/redis/src/dict.c:312-347 | The same for delete: the map without the key |
| DictModel.FindKeeps | webserver/redis/src/dict.c:391-410 | A lookup, which may migrate a bucket, leaves the map as it was |
| DictModel.ExpandKeeps | webserver/redis/src/dict.c:156-182 | Starting an expansion keeps the invariant and what every key maps to |
| DictModel.MigrateKeepsMap | webserver/redis/src/dict.c:189-225 | Moving a bucket to the new table keeps the map |
| DictModel.CursorInBounds | webserver/redis/src/dict.c:203-207 | While rehashing, a bucket at or after the cursor is not empty, so the scan stays inside the table |
| DictModel.NextPowerOk | webserver/redis/src/dict.c:542-553 | The size chosen is the smallest power of two from the initial size on that is large enough |
| DictSizes.GrowsWhen | webserver/redis/src/dict.c:519-539 | Before an add: without tables the first one gets four buckets; a table with as many entries as buckets, or with six times as many where resizing is not allowed, begins to move to the smallest power of two for twice its entries; nothing else happens |
| DictSizes.AddLoad | webserver/redis/src/dict.c:259-284 | After an add a table that is not moving has at most one entry to a bucket, or six where resizing is not allowed |
| DictSizes.ShrinksWhen | webserver/redis/src/dict.c:144-153 | dictResize begins to move the entries to the smallest table with a bucket for each and at least four, exactly if that is allowed and they are not moving |
| Dict.Dict.AddEntry | webserver/redis/src/dict.c:259-284 | The method carries out the transition Add; it fails exactly when the key is in the map, and the map changes by that key |
| Dict.Dict.FindEntry | webserver/redis/src/dict.c:391-410 | Returns what the map says |
| Dict.Dict.ReplaceEntry | webserver/redis/src/dict.c:289-310 | Carries out Replace; the result says whether the key is new |
| Dict.Dict.DeleteEntry | webserver/redis/src/dict.c:312-347 | Carries out Delete; succeeds exactly when the key is in the map |
| Dict.Dict.Rehash | webserver/redis/src/dict.c:189-225 | Carries out up to n bucket migrations and says whether any are left |
| Dict.Dict.Lookup | webserver/redis/src/dict.c:560-582 | Searches one table, or both while rehashing, and finds the key exactly when the map has it |
| Dict.Dict.ExpandTo | webserver/redis/src/dict.c:156-182 | Carries out Expand, refusing while rehashing or when the entries would not fit |
| Dict.Dict.ExpandIfDue | webserver/redis/src/dict.c:519-539 | Carries out ExpandIfNeeded: the first table, or doubling when full and allowed or five times over-full |
| Dict.Dict.ResizeToFit | webserver/redis/src/dict.c:144-153 | Carries out Resize |
| DictIteration.SafeIteration | webserver/redis/src/dict.c:432-475 | Whatever adds, overwrites, lookups and deletions of the key returned last happen between calls, a key that stays in the dictionary comes out at most once, and exactly once when the iteration has ended; the count of iterators is restored |
| DictIteration.ActTracks | webserver/redis/src/dict.c:254-256 | One step of such a run keeps, for each key, that it has come out once or is still to come |
| DictIterator.SafeIterator.MoveNext | webserver/redis/src/dict.c:439-468 | The iterator object carries out the transition Next on its dictionary |
| DictIterator.SafeIterator.Release | webserver/redis/src/dict.c:470-475 | Releasing the iterator takes its registration back |
| DictMigration.BoundedMigration | webserver/redis/src/dict.c:189-225 | Whatever calls of dictAdd, dictReplace, dictFind, dictDelete and dictGetRandomKey follow: a rehash started by an add while no iterator runs is over within one step more than the old table had buckets in use, and the new table then holds at most 2u + 1 entries in at least 2u buckets, u being the entries at its start |
| DictMigration.CallProgress | webserver/redis/src/dict.c:254-347 | Each call while rehashing empties a bucket of the old table, which never grows, and adds at most one entry; only dictReplace, with its two steps, can also hand over |
| Decimal.Ll2String | webserver/redis/src/util.c:189-208 | The text of every integer |
| Decimal.String2ll | webserver/redis/src/util.c:213-274 | Succeeds exactly on the canonical text of a long long, with its value |
| Decimal.ValueOfDigits | webserver/redis/src/util.c:189-208 | The digits of a number have the value of the number |
| Decimal.StrtollPrint | webserver/redis/src/rdb.c:92-99 | strtoll reads back the text of every long long to its end |
| Networking.RedisClient.ReadQuery | webserver/redis/src/networking.c:910-949 | Carries out the transition Feed for the bytes of one read, and keeps what the assertions of the parser rest on |
| Networking.RedisClient.ProcessInputBuffer | webserver/redis/src/networking.c:871-908 | Carries out ProcessInput: requests are taken from the buffer until one is incomplete or wrong |
| Networking.RedisClient.ProcessMultibulkBuffer | webserver/redis/src/networking.c:767-869 | Carries out ProcessMultibulk, the resumable parsing of one request: a count that is not positive takes its line away and dispatches nothing (NetworkingMixed), other bytes close the connection exactly as NetworkingErrors says |
| Networking.RedisClient.ReadCount | webserver/redis/src/networking.c:815-847 | Reads the length of the next argument, waits for it, or fails, as the specification says for the rest of the buffer |
| Networking.RedisClient.ProcessInlineBuffer | webserver/redis/src/networking.c:715-753 | Succeeds exactly when a line has ended, that is at a CRLF with no NUL and no CRLF before it; the arguments are then the list of words that line splits into, and the buffer starts behind it |
| NetworkingInline.WordsCharacterised | webserver/redis/src/networking.c:743-751 | A line splits into a list if and only if no member of it is empty or holds a space and the line is these members with at least one space between two and any number around: there is one such list, and words joined by spaces are split back |
| NetworkingMixed.InlineIndependent | webserver/redis/src/networking.c:715-753 | However the bytes of a list of lines are cut into reads, exactly the words of each line that has any are dispatched, in order, and the client ends reset with an empty buffer, if and only if no read ends more than 64K inside a line; if one does, the connection is closed, and exactly the lines that were complete by then have been dispatched |
| NetworkingMixed.MixedIndependent | webserver/redis/src/networking.c:871-908 | The same for streams of multi bulk and inline requests in any order, with count lines of zero or less among them, which dispatch nothing: what is dispatched does not depend on the reads, with the exact condition under which the connection is closed, and exactly the requests complete by then dispatched |
| NetworkingMixed.EmptyPass | webserver/redis/src/networking.c:800-804 | A count line with a number of zero or less is taken from the buffer, however much follows it, and the request is over; part of one waits |
| NetworkingErrors.PassCloses | webserver/redis/src/networking.c:777-847 | For any bytes: a request closes the connection if and only if 64K have arrived without the end of its header, or the header is no long long or more than 1048576, or it announces arguments of which some are whole and the next has a bad count line |
| NetworkingErrors.ArgumentsClose | webserver/redis/src/networking.c:813-868 | The same for the arguments that are left: the connection is closed if and only if, behind whole arguments and fewer of them than announced, a count line does not end within 64K of buffer, does not start with a dollar sign, or is no number from 0 to 512M |
| NetworkingErrors.InlineCloses | webserver/redis/src/networking.c:715-728 | A line closes the connection if and only if more than 64K have arrived and it has not ended |
| NetworkingErrors.ErrorCloses | webserver/redis/src/networking.c:871-908 | Behind any complete requests such a request closes the connection when all of them have been dispatched, and nothing else is |
| NetworkingInline.FindCrlfIs | webserver/redis/src/networking.c:716-716 | The search finds the first CRLF that no NUL precedes, and nothing if there is none |
| NetworkingChunks.ChunkIndependent | webserver/redis/src/networking.c:767-908 | However the bytes of a list of commands are cut into reads, exactly these commands are dispatched, in order, and the client ends reset with an empty buffer, if and only if no read trips the size check; if one does, the connection is closed, and exactly the commands that were complete by then have been dispatched |
| NetworkingChunks.FeedAt | webserver/redis/src/networking.c:767-908 | One read takes the state that belongs to a position of the stream to the one that belongs to the position behind it |
| NetworkingChunks.SmallArgumentsNeverTrip | webserver/redis/src/networking.c:816-824 | With arguments short enough against the size of a read the check is never tripped |
| NetworkingChunks.LargeArgumentTrips | webserver/redis/src/networking.c:816-824 | For all reads of up to 16384 bytes: a legal command of two arguments, the first of 64K or more, is refused and not dispatched when some read ends behind the first argument and before the CR of the next count line, because the check measures the whole buffer |
| Resp.CatGenericCommand | webserver/redis/src/aof.c:158-181 | Appends the encoding of the command |
| AofCodec.DecodeEncoded | webserver/redis/src/aof.c:308-342 | The loader cuts the encoding of any commands into these commands |
| AofCodec.DecodeConcat | webserver/redis/src/aof.c:308-342 | What is appended to a file of whole commands is decoded on its own |
| AofExact.FileExact | webserver/redis/src/aof.c:308-342 | The loader takes a file for a list of commands if and only if it spells them: lines as fgets takes them, with a star or a dollar sign and a number as atoi reads it, at least one argument to a command, and two bytes behind each argument that are not looked at |
| AofExact.EndExact | webserver/redis/src/aof.c:320-342 | Of all other files it reports an unexpected end for those that end where an argument of a command should begin, and a bad format for the rest |
| AofExact.NumeralRead | webserver/redis/src/aof.c:328-337 | Blanks, a sign and digits are read as their number, whatever other byte follows, by atoi and, held within 64 bits, by strtol |
| AofExact.UpperLetter | webserver/redis/src/aof.c:345-345 | Only the 26 lower case letters are changed where names are compared |
| AofReplay.LoadAppendOnlyFile | webserver/redis/src/aof.c:308-400 | Reading and executing command by command gives what decoding the file and replaying it gives, with the same read and format errors, the open MULTI at the end included |
| AofReplay.ReplayConcat | webserver/redis/src/aof.c:308-376 | Replaying a log in two parts |
| AofRewrite.DumpReplay | webserver/redis/src/aof.c:404-650 | Replaying a rewrite rebuilds the snapshot, except that deadlines passed at the time are lost |
| AofRewrite.RewriteLoads | webserver/redis/src/aof.c:616-623 | The file of a rewrite loads to the snapshot itself if and only if no key is past its deadline; a key that is comes back without one |
| AofRewrite.RewriteRevives | webserver/redis/src/aof.c:616-623 | A rewrite in second 2 of a key whose deadline was second 1 loads to that key without a deadline |
| AofRewrite.ElementsReplay | webserver/redis/src/aof.c:459-614 | The commands of a string, list, set, sorted set or hash rebuild it element by element |
| AofLog.NextKeeps | webserver/redis/src/aof.c:203-246 | Every event keeps the invariant: commands, MULTI and EXEC, flushes, forks, every way a rewrite can end, switching the log on and off |
| AofLog.CrashConsistent | webserver/redis/src/aof.c:745-877 | After any run: a log in step loads, file and buffer together, to the data; what the child leaves with the differences does too; and the file alone loads to the data at the last flush |
| AofLog.AlwaysOn | webserver/redis/src/aof.c:203-246 | With the log on since the start and commands fed in the second they run, no EXEC lost and no key past its deadline at a fork, this holds at every moment outside an EXEC |
| AofLog.SinceFirstRewrite | webserver/redis/src/aof.c:43-58 | With the log switched on later it holds from the first completed rewrite on, whatever the file held |
| AofLog.SteadyRun | webserver/redis/src/aof.c:664-706 | A log in step stays in step, and one that is not gets there with the first rewrite that completes |
| AofLog.ClockDrift | webserver/redis/src/aof.c:183-201 | Reading the clock again when a relative expiry is fed shifts the deadline in the log by exactly the time between; log and data agree if and only if there was none |
| AofLog.LateFeed | webserver/redis/src/aof.c:183-201 | EXPIRE k 1 run in second 10 and fed in second 11 has the deadline 11 in memory and 12 in the log |
| AofLog.DataReplay | webserver/redis/src/aof.c:218-231 | A command as it is fed replays to what it did, EXPIRE and SETEX with their absolute deadline, deadlines not in the future as DEL |
| AofLog.LogFaithful | webserver/redis/src/aof.c:203-246 | Following the SELECTs of the fed commands gives exactly the commands, each with its database, wherever appendseldb is reset; for the bytes, and for what clients run, see ClientLog |
| AofSwitches.SwitchStates | webserver/redis/src/aof.c:20-58 | After any run the log is on, has the number of a descriptor, and has a child rewriting it, exactly as the list of events says: what switching off and on, forks and the ends of children do to each other, with both failures of switching on |
| AofSwitches.BytesMove | webserver/redis/src/aof.c:78-156 | In any step the file changes only by a flush or switching off, which move the buffer to its end, or by a swap, which puts the temporary file with the differences in its place and drops the buffer if there is a descriptor |
| AofSwitches.ExpireLive | webserver/redis/src/db.c:528-568 | EXPIRE and EXPIREAT set the deadline of a key that is there, or remove the key if it is not in the future, and touch no other |
| AofSwitches.ElementKeeps | webserver/redis/src/aof.c:344-354 | RPUSH, SADD, ZADD and HSET, as the loader runs them, keep the deadline of their key, give a new key none, do nothing to a value of another kind, and touch no other key |
| AofCrash.CrashAnywhere | webserver/redis/src/aof.c:108-123 | In any run with the log on since the start and rewrites forked outside transactions, let the process die when any part of the buffer has been written: redis-check-aof cuts the file at one position, and what is left loads to the data as it was after some number of events, outside any transaction, or, if the next event is a SETEX of which only the SET was written, to that data with the key and no deadline |
| AofCrash.ToolCuts | webserver/redis/src/redis-check-aof.c:75-117 | The position is behind the last whole command of what was written that leaves no MULTI open |
| AofCrash.RunLegible | webserver/redis/src/aof.c:745-877 | In every state of such a run the tool can read the file, the file with the buffer, and what a child leaves with the differences to their ends |
| AofCrash.TornSetex | webserver/redis/src/aof.c:221-229 | SETEX k 10 v of which the SELECT and the SET were written loads to a key without a deadline |
| AofCrash.ForkInside | webserver/redis/src/aof.c:708-719 | After a rewrite that starts while an EXEC runs its queue, the new file has the EXEC without its MULTI, and the tool rejects it |
| ClientLog.ClientsLogged | webserver/redis/src/aof.c:203-246 | For any run of clients, fed at any times and with appendseldb reset anywhere: the bytes decode to what was fed; following the SELECTs gives the run's commands and the DELs of expired keys in order, each with its database; the file loads if and only if the last transaction that ran is not left open, and then to the effects of these commands; redis-check-aof accepts the whole of it if and only if every EXEC that ran has reached it |
| ClientLog.LinesLoad | webserver/redis/src/aof.c:308-388 | The same for any lines: decoded, attributed, and loaded unless a MULTI is open at the end |
| ClientLog.AlternateRun | webserver/redis/src/redis-check-aof.c:88-104 | In the log of a run MULTI and EXEC alternate exactly when it consists of whole blocks of one client each |
| ClientLog.WholeSound | webserver/redis/src/redis-check-aof.c:75-117 | The tool accepts the whole of an encoded list of commands if and only if its brackets match |
| Aof.Server.FeedAppendOnlyFile | webserver/redis/src/aof.c:203-246 | Carries out the transition Feed on both buffers |
| Aof.Server.FlushAppendOnlyFile | webserver/redis/src/aof.c:78-156 | Writes everything, or nothing; postpones exactly when a background fsync is pending, the flush is not forced and less than two seconds have been waited; when the process ends, when and how an fsync follows; and the new values of lastfsync and of the start of the waiting, as AofFsync has them |
| AofFsync.OneJobASecond | webserver/redis/src/aof.c:147-155 | Over any run of flushes, under any policies, with a clock that does not run backwards: no job is queued in a second that has seen another one or an fsync |
| AofFsync.JobDue | webserver/redis/src/aof.c:151-154 | Under everysec a complete write queues a job exactly when the second of the last fsync is over, unless one is pending or a child holds fsyncs back |
| AofFsync.WaitsTwoSeconds | webserver/redis/src/aof.c:87-109 | Flushes postponed one after the other lie within two seconds |
| AofFsync.WrittenInTime | webserver/redis/src/aof.c:87-127 | Two seconds after the first of them a flush writes, or the process ends |
| Aof.Server.RewriteAppendOnlyFileBackground | webserver/redis/src/aof.c:664-706 | Carries out Forked, or changes nothing; the child leaves the rewrite of the snapshot if it exits with success |
| Aof.Server.BackgroundRewriteDone | webserver/redis/src/aof.c:745-877 | Carries out Reaped for each way the rewrite can end; the files are swapped exactly when everything worked |
| Aof.Server.StopAppendOnly | webserver/redis/src/aof.c:20-39 | Carries out Stopped, or the process ends |
| Aof.Server.StartAppendOnly | webserver/redis/src/aof.c:43-58 | Carries out Started, both failures included |
| Aof.RewriteAppendOnlyFile | webserver/redis/src/aof.c:404-650 | The loops over databases, keys and elements write exactly the rewrite; it succeeds exactly when the file opens, the disk has room for it, and the file can be renamed |
| Aof.WriteItem | webserver/redis/src/aof.c:436-625 | One key: the commands of its value, then EXPIREAT unless its deadline has passed |
| WatchIndex.ReactTells | webserver/redis/src/multi.c:152-255 | Whatever happens, a client is in the list of a pair, once, exactly when the pair is in its own list, once; no list of clients is empty; and a client is dirty exactly when a pair was touched while it watched it and it has not forgotten since |
| WatchIndex.UnwatchFirstOk | webserver/redis/src/multi.c:183-207 | Each turn of the unwatching loop finds the client in the list it looks in, and removes that one link from both lists |
| WatchIndex.TouchOnFlushOk | webserver/redis/src/multi.c:234-255 | A flush dirties exactly the clients that watch a key it removes |
| MultiRuns.IndexReachable | webserver/redis/src/multi.c:134-273 | The same in every state that clients can reach |
| MultiEvents.RunsAgree | webserver/redis/src/multi.c:77-273 | For every run from the start, from the list of events alone: the database, queue and state of each connection; who watches what; which commands ran, for whom and in which order; and whose next EXEC is refused |
| MultiEvents.ExecDecided | webserver/redis/src/multi.c:88-127 | EXEC runs nothing if and only if the client asked to watch a pair outside a transaction, in the database it had selected, and has sent no UNWATCH, EXEC or DISCARD and not disconnected since, and a command that ran afterwards, of anybody, has touched that pair or flushed it away; else it runs the whole queue; afterwards it watches nothing |
| MultiEvents.DiscardDrops | webserver/redis/src/multi.c:52-63 | DISCARD ends the transaction, drops its queue and what the client watches, runs nothing, feeds nothing, and leaves the other connections as they are |
| MultiEvents.DirtyBalanced | webserver/redis/src/rdb.c:1063-1075 | Over any run in which nothing sets the counter of changes, it is what the commands that ran have added and each EXEC by itself, less what each background save took from it, which is what it was when that save began |
| MultiRuns.Transaction | webserver/redis/src/multi.c:77-132 | EXEC runs exactly what the client has sent since MULTI, in order and in one piece, if no pair was touched while it watched it, and nothing otherwise; afterwards it watches nothing and the other connections are as they were |
| MultiRuns.QueueIsSent | webserver/redis/src/redis.c:1138-1150 | Between MULTI and EXEC the queue is what the client has sent that is not executed at once, whatever the others do |
| MultiRuns.ExecLog | webserver/redis/src/multi.c:99-131 | A transaction adds to the log MULTI, its commands that raise the counter and the DELs of the keys they found expired, each with its database, and EXEC if that raised the counter |
| MultiRuns.ExecBalanced | webserver/redis/src/redis.c:1037-1047 | The log is balanced after a transaction if and only if its queue does not leave the counter of changes lower than it was |
| MultiRuns.ClosesWhen | webserver/redis/src/multi.c:128-131 | EXEC reaches the log if and only if no command of the queue resets the counter (SAVE, DEBUG RELOAD, DEBUG LOADAOF, a FLUSHALL that truncates it), or what the last one that does sets it to, with what is added after, is no less than the counter before the transaction |
| MultiRuns.CalmCloses | webserver/redis/src/multi.c:128-131 | A queue without SAVE, DEBUG RELOAD and DEBUG LOADAOF always reaches its EXEC, while the counter is an int or there is no FLUSHALL that saves |
| MultiRuns.FlushAllCounts | webserver/redis/src/db.c:206-222 | With save points set, FLUSHALL itself reaches the log if and only if the counter and the number of keys together fit an int |
| MultiRuns.SaveLeavesOpen | webserver/redis/src/rdb.c:487-487 | A client that changes a key and sends MULTI, SAVE, EXEC: the log of this run is the change and an open MULTI |
| MultiRuns.LogBalanced | webserver/redis/src/multi.c:67-132 | The log of any run consists of commands, DELs of expired keys and MULTI ... EXEC blocks of one client each if and only if every EXEC that ran its queue has reached it; once one has not, its MULTI stays open for good |
| Multi.Server.ProcessCommand | webserver/redis/src/redis.c:1138-1150 | Carries out Request: queueing, or calling; MultiEvents says over whole runs what that comes to |
| Multi.Server.CallBasic | webserver/redis/src/redis.c:1037-1047 | Carries out one command that is not about transactions, the counter of FLUSHALL and of the commands that reset it included |
| Multi.Server.ExecCommand | webserver/redis/src/multi.c:77-132 | Carries out ExecStep |
| Multi.Server.WatchForKey | webserver/redis/src/multi.c:152-179 | Carries out the moment Watched on both lists |
| Multi.Server.UnwatchAllKeys | webserver/redis/src/multi.c:183-207 | Carries out UnwatchAll |
| Multi.Server.TouchWatchedKey | webserver/redis/src/multi.c:211-228 | Carries out the moment Touched |
| Multi.Server.TouchWatchedKeysOnFlush | webserver/redis/src/multi.c:234-255 | Carries out the moment FlushedDb, in whatever order the clients are visited |
| Multi.Server.FreeClient | webserver/redis/src/networking.c:504-547 | A client that disconnects is taken out of the index |
| Sha1.Transform | webserver/redis/src/sha1.c:106-162 | The rounds over the circular schedule compute the hash of a block as FIPS 180-4, section 6.1.2, defines it with 80 words |
| Sha1.FiveRounds | webserver/redis/src/sha1.c:130-150 | Five macros with renamed registers are five rounds of the standard |
| Sha1.R | webserver/redis/src/sha1.c:96-101 | A macro is one round: its function, constant and order of the sum against those of sections 4.1.1, 4.2.1 and 6.1.2 |
| Sha1.SchedStep | webserver/redis/src/sha1.c:93-94 | The slot a round overwrites receives the word the schedule of 80 words has there, and the fifteen others stay right |
| Sha1.SwappedIs | webserver/redis/src/sha1.c:85-88 | Swapping the bytes of a little-endian word gives the big-endian one |
| Sha1.Context.Update | webserver/redis/src/sha1.c:181-201 | The context of a message becomes that of the message with the data appended: whole blocks hashed, the rest buffered, the length in bits modulo 2^64 |
| Sha1.CountCarries | webserver/redis/src/sha1.c:186-189 | The two 32-bit counters with their carry hold the length modulo 2^64 |
| Sha1.Context.Final | webserver/redis/src/sha1.c:206-248 | The digest of the message, with the padding of section 5.1.1 |
| Sha1.HashChunks | webserver/redis/src/sha1.c:165-248 | The digest of a message does not depend on how it is cut into updates |
| Sha1Vector.DigestOfAbc | webserver/redis/src/sha1.c:165-248 | The definition gives the digest that appendix A.1 of FIPS 180-2 gives for abc, a9993e36 4706816a ba3e2571 7850c26c 9cd0d89d, through its 80 words and 80 rounds |
| Sha1Spec.RotationBits | webserver/redis/src/sha1.c:81-81 | Bit i of a word rotated by 1, 5 or 30 is bit i - 1, i - 5 or i - 30, modulo 32, of the word |
| Sha1Spec.ChBits | webserver/redis/src/sha1.c:97-98 | Where the first word has a bit, Ch takes that of the second, elsewhere that of the third |
| Sha1Spec.ParityBits | webserver/redis/src/sha1.c:99-101 | Parity has the bits that an odd number of its arguments has |
| Sha1Spec.MajBits | webserver/redis/src/sha1.c:100-100 | Maj has the bits that at least two of its arguments have |
| Sha1Spec.ConstantRoots | webserver/redis/src/sha1.c:97-101 | The four constants are the whole parts of 2^30 times the square roots of 2, 3, 5 and 10 |
| Sha1Spec.InitialBytes | webserver/redis/src/sha1.c:168-176 | The initial value is the bytes 01 23 45 67 89 ab cd ef fe dc ba 98 76 54 32 10 f0 e1 d2 c3, lowest first in each word |
| Sha1Spec.LengthValue | webserver/redis/src/sha1.c:229-232 | The eight bytes at the end of the padding are those that stand for the length in bits modulo 2^64, highest first |
| RdbString.RoundTrip | webserver/redis/src/rdb.c:557-659 | A string in any of its three forms is loaded as it was, and what follows it is left |
| RdbString.LenRead | webserver/redis/src/rdb.c:31-55 | Lengths of one, two or five bytes are read back |
| RdbString.IntegerRead | webserver/redis/src/rdb.c:62-83 | Integers of one, two or four bytes in two's complement are read back as their text |
| RdbString.LzfRead | webserver/redis/src/rdb.c:614-631 | A compressed string is read back |
| RdbString.LoadsWhen | webserver/redis/src/rdb.c:557-659 | For any bytes: strings that are not compressed are loaded exactly when as many bytes are there as the first ones announce, and the length that stands for an error is refused; an encoding the format does not have ends the process, and nothing else does |
| RdbString.LzfLoadsWhen | webserver/redis/src/rdb.c:614-631 | A compressed string is loaded exactly when both lengths and the data are there, the data is not empty and decompresses within the length announced to something; the string is that, filled up with NULs to the length |
| Rdb.TryIntegerEncoding | webserver/redis/src/rdb.c:88-102 | Encodes exactly the texts, as they are printed, of integers that fit 32 bits |
| Rdb.Stream.SaveLen | webserver/redis/src/rdb.c:31-55 | Writes the length; the count is what was written |
| Rdb.SaveRawString | webserver/redis/src/rdb.c:143-173 | The bytes written, in a real or a dry run, are one form of the string; the result is their number as a C int; integers exactly as short canonical texts allow; the case in which a compressed string is stored again |
| Rdb.SaveLzf | webserver/redis/src/rdb.c:104-139 | Stores the compressed form, saving at least four bytes, or nothing |
| Rdb.TwiceLeaves | webserver/redis/src/rdb.c:158-163 | What is written is loaded as the string, and all of it is consumed if and only if it is not a compressed form of 2^31 to 2^32 bytes (2^32 - 1 excepted) |
| Rdb.StoredTwiceWhen | webserver/redis/src/rdb.c:158-163 | The test of the count takes a compressed string for one that was not stored exactly at these sizes |
| Rdb.StoredTwiceCase | webserver/redis/src/rdb.c:158-163 | A string for which it goes wrong, with any hash table: 2 090 000 000 bytes without repeats and 100 000 000 NULs, saved with compression, are in the file twice, the second copy is left after loading, and the size reported is not that of the file |
| Rdb.TwiceTextForms | webserver/redis/src/rdb.c:104-139 | The compressor stores that string, whatever its table holds, and every compressed form of it has one of the sizes in question |
| Rdb.CountWraps | webserver/redis/src/rdb.c:16-29 | A string of 2^31 - 5 bytes, not compressed, has the count -2^31 |
| Rdb.BelowTwoGigabytes | webserver/redis/src/rdb.c:158-163 | For strings shorter than 2^31 - 7 bytes every form takes a size an int can count, and none is stored twice |
| Rdb.CountRight | webserver/redis/src/rdb.c:16-19 | The count that SaveRawString returns is the number of bytes written, second copy included, if and only if the form it chose takes a size an int can count |
| Rdb.SaveAndLoad | webserver/redis/src/rdb.c:143-173 | A string saved to an empty file and loaded from it comes back, and what is left is the second copy, if there is one; the reported size is that of the file if and only if the form chosen takes a size an int can count. Without compression, and for strings in which no three bytes come back within 8192, nothing is left, and the size is right if and only if the string is at most 2^31 - 6 bytes long; for all strings of up to 2^31 - 8 bytes both are right |
| Rdb.SaveLongLong | webserver/redis/src/rdb.c:176-192 | A long long is stored so that it loads as its text |
| Rdb.Source.LoadLen | webserver/redis/src/rdb.c:557-581 | Carries out the reading of a length on the file |
| Rdb.Source.LoadStringObject | webserver/redis/src/rdb.c:633-659 | Carries out the loading of a string on the file |
| Intset.Intset.Add | webserver/redis/src/intset.c:170-197 | The set gains the value, and the result says whether it is new; the order and the width are kept or widened as the value needs |
| Intset.Intset.Remove | webserver/redis/src/intset.c:200-215 | The set loses the value, and the result says whether it was there |
| Intset.Intset.Find | webserver/redis/src/intset.c:218-221 | Answers whether the value is in the set |
| Intset.Intset.Search | webserver/redis/src/intset.c:83-122 | Finds the value, or the place between the smaller and the larger ones |
| Intset.Intset.UpgradeAndAdd | webserver/redis/src/intset.c:125-148 | All values move to the larger width and the new one goes to the end it belongs to |
| Intset.Intset.Upgrade | webserver/redis/src/intset.c:135-139 | The back-to-front loop reads every value before it is overwritten |
| Intset.Intset.MoveTail | webserver/redis/src/intset.c:150-167 | memmove of the bytes of the tail |
| IntsetModel.UpgradeStep | webserver/redis/src/intset.c:135-139 | Storing a value in the larger width leaves the bytes of all values before it and the values behind it |
| IntsetModel.SignedBack | webserver/redis/src/intset.c:25-62 | A value written in two's complement in a width it fits is read back |
| IntsetModel.InsertValues | webserver/redis/src/intset.c:190-195 | Moving the tail and storing the value inserts it into the sequence of values |
| IntsetModel.DeleteValues | webserver/redis/src/intset.c:205-213 | Moving the tail down deletes a value from the sequence |
| IntsetModel.Outside | webserver/redis/src/intset.c:175-177 | A value that needs a larger width lies outside the range of all present |
| IntsetModel.ValueEncoding | webserver/redis/src/intset.c:15-22 | The smallest of the three widths that holds the value |
| IntsetModel.SortedUnique | webserver/redis/src/intset.c:83-122 | The set of values determines the array |
| SdsRepr.SplitJoined | webserver/redis/src/sds.c:406-579 | Splitting the quoted strings joined by spaces gives back exactly the list, for all byte strings, with any blanks behind |
| SdsRepr.EscapeRead | webserver/redis/src/sds.c:406-429 | The quoted form of each byte is read as that byte |
| SdsRepr.JoinedInjective | webserver/redis/src/sds.c:406-579 | Different lists give different lines |
| SdsRepr.SplitArgs | webserver/redis/src/sds.c:474-579 | The loops over blanks, bare words and both kinds of quotes compute the splitting function, which SdsSplit characterises |
| SdsSplit.SplitExact | webserver/redis/src/sds.c:474-579 | A line is accepted if and only if it is a list of words with blanks between them, a word being bytes without quotes, a quoted text behind them, or both; and it is split into what they stand for |
| SdsSplit.SplitRefuses | webserver/redis/src/sds.c:515-540 | A line is refused if and only if behind some whole words there is a quote that is never closed, or that is closed before something else than a blank |
| SdsSplit.SplitStyled | webserver/redis/src/sds.c:474-579 | Splitting gives back every list of arguments, each written bare, between double or between single quotes as it can be, in any mixture and with any blanks: bare if it is not empty and has no blanks, quotes or NULs; between single quotes, with a backslash before each single quote, if it has no NUL and does not end in a backslash; between double quotes always |
| SdsSplit.Letters | webserver/redis/src/sds.c:506-513 | Of the letters behind a backslash n, r, t, b and a stand for control characters, every other byte for itself |
| SdsSplit.HexDigits | webserver/redis/src/sds.c:433-462 | The hexadecimal digits of both cases have their values |
| SdsSplit.Forms | webserver/redis/src/sds.c:409-425 | Printable bytes are quoted as themselves, quotes and backslashes behind a backslash, five control characters by a letter, all others by two lower case hexadecimal digits |
| SdsRepr.CatRepr | webserver/redis/src/sds.c:406-429 | Appends the quoted form |
| SdsRepr.JoinReprs | webserver/redis/src/replication.c:56-65 | Joins the quoted arguments by single spaces |
| KeyspaceModel.Refines | webserver/redis/src/db.c:46-112 | Every operation answers, and leaves the database looking, as if keys vanished at their deadlines, whichever are still stored, unless it is DEL, EXPIRE or PERSIST on a key that is past its deadline and still stored, or DBSIZE while there is one, and then its answer is always wrong; expires stays within dict, under the same key objects |
| KeyspaceRuns.InstantExpiry | webserver/redis/src/redis.c:481-523 | Over whole runs on all databases, MOVE and FLUSHALL included, with a clock that does not run backwards and whatever the expire cycle draws: all replies are those of instantaneous expiry if and only if no step is one of these, and then all databases end up looking as there |
| KeyspaceRuns.SaneRuns | webserver/redis/src/db.c:440-476 | After every run, lucky or not, expires is within dict in each database, under the same key objects, and different keys have different ones |
| KeyspaceRuns.ExecuteRefines | webserver/redis/src/db.c:394-435 | One command on several databases: MOVE, with its refusals, always answers and leaves both databases as in the ideal server |
| KeyspaceRuns.LateDel | webserver/redis/src/db.c:224-236 | SET, EXPIRE 1 and, two seconds later, DEL: the replies end with 1 where the key should have been gone |
| KeyspaceModel.RenameKeeps | webserver/redis/src/db.c:353-384 | RENAME and RENAMENX move value and deadline and replace the target |
| KeyspaceModel.MoveRefines | webserver/redis/src/db.c:394-435 | MOVE takes the value along and drops the deadline |
| KeyspaceModel.ExpireRefines | webserver/redis/src/db.c:528-568 | EXPIRE behaves as if the key had vanished if and only if it has not been passed over: on a stored key past its deadline it does not |
| KeyspaceModel.SizeRefines | webserver/redis/src/db.c:295-297 | DBSIZE exceeds the number of keys that can be seen by the number past their deadlines and still stored |
| KeyspaceModel.TtlRefines | webserver/redis/src/db.c:578-587 | TTL answers as if the key had vanished, although it does not look |
| KeyspaceModel.CycleKeeps | webserver/redis/src/redis.c:498-514 | Removing drawn keys past their deadline changes nothing that can be seen |
| KeyspaceModel.CycleExact | webserver/redis/src/redis.c:498-514 | Of the keys drawn exactly those past their deadlines are removed, from both tables, and nothing else changes |
| Keyspace.RedisDb.ExpireIfNeeded | webserver/redis/src/db.c:496-522 | Removes the key exactly when it is past its deadline, and propagates a DEL first |
| Keyspace.RedisDb.LookupKey | webserver/redis/src/db.c:46-61 | Finds what the view of the present time holds |
| Keyspace.RedisDb.SetKey | webserver/redis/src/db.c:103-112 | Carries out SetKey: the value without a deadline; a DEL is propagated exactly if the key was past its own |
| Keyspace.RedisDb.Rename | webserver/redis/src/db.c:353-384 | Carries out RENAME and RENAMENX; a DEL is propagated exactly for the key that the lookups meet past its deadline |
| Keyspace.RedisDb.TtlCommand | webserver/redis/src/db.c:578-587 | The time to the deadline in the view of the present time, or -1 |
| Keyspace.RedisDb.ActiveExpire | webserver/redis/src/redis.c:481-523 | Turns of ten keys, or as many as have deadlines, each there when it is drawn; another turn follows exactly when more than two of the keys had expired and the time, looked at every 256 turns, is not up; the state is that of removing the expired ones among all keys drawn, each propagated once; when every deadline has passed and the time is not up, no key with a deadline is left; nothing that can be seen changes |
| Keyspace.Emptied | webserver/redis/src/redis.c:489-522 | Turns that follow each other as the source has it empty the table of deadlines when all of them have passed, unless the time is up |
| Keyspace.MoveCommand | webserver/redis/src/db.c:394-435 | Carries out MOVE on the databases of a server, refusing one that does not exist and the one selected; in each database a DEL is propagated exactly if the key is met there past its deadline |
| Bio.EveryInterleaving | webserver/redis/src/bio.c:94-154 | In every interleaving of creators, askers and the worker: jobs run at most once and in the order of creation; the counter is the length of the list whenever the lock is free; who reads 0 knows that every job created before has run; the worker sleeps only with nothing to do or a signal on its way |
| Bio.JobsDone | webserver/redis/src/bio.c:107-143 | From every state that can be reached and under every schedule: once the worker has made six moves for each job not yet executed, all jobs that had been created are executed |
| Bio.NoDeadlock | webserver/redis/src/bio.c:94-154 | While a job is left, the worker can move without waking up unsignalled, or the thread that holds the mutex can |
| Bio.Releases | webserver/redis/src/bio.c:101-154 | A thread that holds the mutex lets go after at most four moves of its own, none of which can be blocked |
| Bio.WorkerReleases | webserver/redis/src/bio.c:107-143 | The worker, when it holds the mutex, lets go of it after at most four moves of its own, none of which can be blocked |
| Bio.CallReturns | webserver/redis/src/bio.c:94-154 | Under every schedule a call is over when its thread has made the moves that are left of it, five to create a job and three to ask, and the job it was to create has then been created |
| Bio.WorkerQueue | webserver/redis/src/bio.c:118-143 | The node the worker deletes is the job it ran, still first in the list |
| Bio.ClientQueue | webserver/redis/src/bio.c:101-105 | Adding a job and counting it, between other threads' steps, keeps list and counter in step |
| CheckAof.Process | webserver/redis/src/redis-check-aof.c:75-117 | The position returned is the end of the longest beginning of the file that consists of whole commands with balanced MULTI and EXEC; a message is written unless the file ends where a line should begin, behind a command, its count or one of its arguments, with no MULTI open |
| CheckAof.Repair | webserver/redis/src/redis-check-aof.c:158-178 | Run again on the file cut off there, the tool accepts all of it without a message |
| CheckAof.ReadOne | webserver/redis/src/redis-check-aof.c:83-108 | One turn of the loop, name checked as soon as it is read, comes to reading the command and following the brackets |
| AofExact.ToolExact | webserver/redis/src/redis-check-aof.c:27-73 | What the tool takes for a command: lines with the prefix and a number right before CRLF, as many strings as the first says, each with CRLF behind its bytes |
| AofExact.StringExact | webserver/redis/src/redis-check-aof.c:52-69 | A string of the tool is its count line, its bytes and CRLF |
| CheckAof.SoundCut | webserver/redis/src/redis-check-aof.c:75-117 | What is sound in a file cut off anywhere is what is sound in the file up to the cut |
| CheckAof.CrashRepair | webserver/redis/src/redis-check-aof.c:75-117 | Of a log that ends inside a command, exactly that command is cut off, if no MULTI is open before it |
| CheckAof.SoundLoads | webserver/redis/src/redis-check-aof.c:71-86 | A file that is sound throughout can be cut into commands by the loader if and only if none is without arguments |
| CheckAof.EmptyCommand | webserver/redis/src/redis-check-aof.c:85-86 | "*0" is accepted by the tool and refused by the loader |

## Left out

- The event loop, sockets and system calls: reads are arbitrary chunks, files are
  byte sequences, and the results of writes, opens, renames and forks are inputs.
- Clocks: times are inputs, and the time limit of an expire cycle is a number of turns; within one command, and within one expire cycle, the
  clock is taken to stand still, except in `AofLog.ClockDrift`.
- The effects of commands other than those a rewrite uses: in the log and in
  transactions they are arbitrary functions of data, database and command.
- Scores of sorted sets are kept as the text they are printed as.
- Overflow of `long` in strtol and in deadlines.
- The limit on the size of a client's query buffer (`networking.c:939-948`).
- Values swapped out by virtual memory, blocking operations, the replication of
  commands to slaves, and the limits processCommand checks first (QUIT, arity,
  password, memory).
- Aliasing of clients: in `Multi.dfy` clients are numbers, and a client's fields are
  an entry of a map.
- Memory: reference counts, failed allocations and the spare room of strings.
- The chains of the dictionary are sequences of entries, and an iterator names the
  entries it points to by their keys, so the linking of nodes is not modelled; the
  mask of a power-of-two size is written as a remainder, and tables of LONG_MAX
  buckets are not reached.
- `_pqsort` moves whole elements here; the choice between words and bytes in its
  swap macros is not modelled.
- The compressor is given an input address of at least 8192, as user memory has,
  and the default configuration of lzfP.h.
- The 80 unrolled macro calls of SHA1Transform are sixteen turns of five.
- Wiping the context at the end of SHA1Final, and updates within 64 bytes of 2^32.
- Integer sets near 2^30 elements, where sizes leave 32 bits; intsetRandom.
- In redis-check-aof a negative length of an argument has no defined behaviour in C;
  here the reading stops there.
- sds growth, ranges and concatenation (`sdsrange`, `sdsMakeRoomFor`, `sdscatlen`),
  `pubsub.c`, `t_set.c`, `slowlog.c`: easier instances of what is proved.
- Replication resync, ziplists, skip lists, the client programs and the application
  around the server.
- Bio.JobsDone: counts the moves of the worker; that it is scheduled at all is up to
  the system.
- Rdb.SaveAndLoad: with compression on, and three bytes that come back, the exact
  condition is about the form chosen, which depends on what the uninitialised hash
  table holds; of the string alone only the bound 2^31 - 8 is proved there.
- AofReplay.LoadAppendOnlyFile: a command that is not in the command table ends the
  process (`aof.c:345-349`); here every command has some effect, because which ones
  there are is not modelled. The server feeds only commands it has just executed.
- `MultiModel` takes server.dirty, a long long, as an unbounded integer; what happens
  at 2^63 changes is not modelled.
- KEYS and RANDOMKEY, which look at each key they return like GET does; OBJECT
  (`object.c:476-482`) and DEBUG OBJECT (`debug.c:241-247`), which like DEL find a key
  without looking at its deadline.

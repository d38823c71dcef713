# A verified model of the cached key-value server

The repository is a multi-threaded HTTP server that keeps key-value pairs in a MySQL table behind a
sharded LRU cache. This project models it in Dafny in two groups of modules and proves what each
group is for.

**The cached store.** `LruShard` is one cache shard: a doubly linked list and a map from keys to list
nodes, changed in place. `Recency` is the recency list it stands for, with the laws of least-recently-used
replacement: which gets hit, and why a larger cache never loses a hit. `Sharding` and `ShardedCache` put shards
together. `KvHandlers` holds the four request handlers on table, cache and connection pool; `KvSpec` says what
they do to table and cache, and relates that to a server without a cache. `Interleaving` runs any number
of handlers at once, one SQL statement or cache call at a time. `ConnectionPool` and `PoolProtocol` are
the blocking connection pool, `ThreadPool` the HTTP worker pool, both as protocols of atomic steps between
taking and giving up a mutex.

**The HTTP machinery.** `MultipartParser` is the streaming multipart parser over its sliding buffer, proved against
`MultipartSpec`. `MultipartHeaders` says what it makes of any header line, `MultipartBody` that the parts of a body come
back however it is cut, `MultipartCutting` exactly when the cutting does matter, and `MultipartRoundTrip` that the
serializer's items come back, alone or with other fields.
`Chunked` is the chunked transfer coding in both directions, `SocketStream` the buffered stream and the
line reader everything is read with, `Headers` and `HeaderGrammar` header fields and blocks, `Ranges` and `RangeHeader` byte ranges,
`Query` query strings, `Base64` the credentials coding, `Text` and `Common` what they share. Strings are
byte strings, one character a byte.

Methods follow the code's own loops and updates; each is proved against a function, and the laws are
lemmas about those functions.

Premises, each stated where it is used:

- a shard's capacity is at least 1, which the sharded constructor guarantees (include/cache.h:78-79);
- a create with an empty value leaves parameter 2 of its statement unbound (src/main.cpp:17), so the
  statement does not complete;
- transparency, the inclusion of a smaller cache and both results on interleavings assume that creates carry a
  value and that their inserts complete, because the failure is swallowed and the cache written all the same
  (src/main.cpp:21-24, 39); `CoherenceKeptIff` shows that this premise is exactly what is needed;
- no exception other than a SQL exception is thrown while a handler holds a connection;
- `unsigned long` and `size_t` have 64 bits, `int` 32, wrapping.

What the proofs bring to light:

- overlapping handlers of one key can leave the cache stale for good unless they are all reads, all deletes, or
  all creates and updates of one value; those never do (`AlwaysRightIff`);
- a job enqueued after the last worker has returned is accepted and never started (`JobLostAfterLastExit`);
  the server itself does not do so, since its only call of enqueue is in the loop before it shuts the queue down
  (include/httplib.h:8076-8084);
- a suffix range longer than the content is answered 416, where section 14.1.2 of RFC 9110 serves the whole
  content (`SuffixAcceptedIff`);
- section 5.1.1 of RFC 2046 has the epilogue of a multipart body ignored; the parser drops what comes in the
  chunk of the closing boundary and goes on parsing what comes later, so that an epilogue is ignored under every
  cutting exactly if nothing after its first line end is a blank, refused or overlong line
  (`EpilogueIgnoredIff`, and `EpilogueChunkIgnoredIff` for one chunk); two line ends alone add a part without a
  name to a request that is accepted (`ExtraPart`);
- the limit of 8192 bytes on a header line of a part holds for every cutting only below 8192, and is not
  applied at all to lines after the first that arrive whole (`EveryCuttingSucceedsIff`, `OneChunkSucceedsIff`);
- a chunked response is reported as sent although it lacks its last chunk if the provider ends it with a write
  of zero bytes or the server shuts down first (`SentReadsBackIff`);
- Readme.md mentions a statistics endpoint and an update that inserts; the code has neither, and the model
  follows the code.

`dafny verify dfyconfig.toml` checks the project.

## Model

| member | source | states |
|---|---|---|
| LruShard.LRUCacheShard.constructor | include/cache.h:21 | A new shard is well formed and empty, with the capacity given |
| LruShard.LRUCacheShard.MapFinds | include/cache.h:15-17 | In a well-formed shard the map knows a key exactly when the linked list holds it, and leads to that key's own node |
| LruShard.LRUCacheShard.ContentsLegal | include/cache.h:15-17 | The list of a well-formed shard has distinct keys and is within capacity |
| LruShard.LRUCacheShard.Unlink | include/cache.h:30 | Taking a node out of the doubly linked list, wherever it is, closes the gap and changes nothing else |
| LruShard.LRUCacheShard.MoveToFront | include/cache.h:30 | The splice: the touched entry comes first, the others keep their order, the structure stays well formed |
| LruShard.LRUCacheShard.Get | include/cache.h:23-33 | Returns exactly what the recency list holds for the key, and the new list is that of the reference sequence |
| LruShard.LRUCacheShard.Put | include/cache.h:35-53 | Overwrite and splice, or evict and insert: on every well-formed list and map the outcome is that of the reference sequence |
| LruShard.LRUCacheShard.Evict | include/cache.h:44-49 | Exactly the least recently used entry goes, from the list and from the map |
| LruShard.LRUCacheShard.Remove | include/cache.h:55-62 | The key goes from list and map, every other entry keeps its place |
| Recency.LookupAfter | include/cache.h:23-62 | Every operation keeps the list legal; a put and a remove decide their own key, any operation leaves any other key alone except that a put may evict one |
| Recency.RunLegal | include/cache.h:15-62 | After every sequence of operations keys are distinct and the size is at most the capacity |
| Recency.FoundIsAlive | include/cache.h:23-62 | What a get finds was put and not removed since, and carries the value last put |
| Recency.AheadIsNewer | include/cache.h:23-62 | While k is in the list, the keys ahead of it are exactly those put or hit since k was and not removed again, after every trace |
| Recency.FoundIffRecent | include/cache.h:23-62 | For every trace, k is in the list exactly when it was put, not removed since, and at no moment since it was last touched had capacity other keys been touched and not removed again |
| Recency.HitIff | include/cache.h:23-62 | For every trace, removes included, exactly then does a get hit, and it returns the value last put |
| Recency.HitIfRecent | include/cache.h:23-62 | For every trace it is enough that fewer than capacity other keys were touched since at all; a key not put or removed since misses |
| Recency.HitIffRecent | include/cache.h:23-62 | For every trace without removes that condition is exact |
| Recency.RemovesKeepKeysLonger | include/cache.h:55-62 | Why removes make a difference to that count: four operations after which a key outlives capacity others |
| Recency.PutKeepsPrefix | include/cache.h:35-53 | A put keeps the list of a smaller shard a prefix of a larger one's |
| Recency.LoneHitKeepsPrefixIff | include/cache.h:23-33 | Exactly when a get that only the larger shard can answer leaves the smaller list a prefix |
| Sharding.ShardsAreIndependent | include/cache.h:71-99 | For every trace shard i is one LRU list that went through the operations whose keys hash to i, and nothing else |
| Sharding.DifferentShardsCommute | include/cache.h:71-99 | Operations on keys of different shards commute |
| Sharding.LookupAfterStep | include/cache.h:89-99 | The per-key law of one shard holds of the cache as a whole |
| Sharding.RunAllProper | include/cache.h:71-99 | After every trace each key is only in the shard it hashes to, and the total size is at most shards times shard capacity |
| Sharding.TotalBound | include/cache.h:77-83 | The constructor's shard capacity is the largest with which all shards together stay within the total asked for, and at least one |
| ShardedCache.ShardedLRUCache.constructor | include/cache.h:77-83 | The loop builds that many distinct empty shards, of the largest equal capacity within the total, at least one |
| ShardedCache.ShardedLRUCache.GetShardIndex | include/cache.h:71-74 | The index is the key's hash modulo the number of shards |
| ShardedCache.ShardedLRUCache.Get | include/cache.h:89-91 | One step of the product of shards, and the looked-up value; no other shard changes |
| ShardedCache.ShardedLRUCache.Put | include/cache.h:93-95 | One step of the product of shards; no other shard changes |
| ShardedCache.ShardedLRUCache.Remove | include/cache.h:97-99 | One step of the product of shards; no other shard changes |
| KvHandlers.Server.ExecSql | src/main.cpp:12-25 | The row is written unless the statement fails, which an empty value makes it do; the connection goes back to the end of the queue either way |
| KvHandlers.Server.HandleCreate | src/main.cpp:30-45 | Table, cache and response are those of the specification on every input, missing parameters included; the connection is back |
| KvHandlers.Server.HandleRead | src/main.cpp:48-89 | Hit, miss, absent key, failed statement and missing parameter, each as specified; a hit takes no connection |
| KvHandlers.Server.HandleUpdate | src/main.cpp:92-126 | The cache is written exactly when the driver reports an affected row; otherwise 404 |
| KvHandlers.Server.HandleDelete | src/main.cpp:129-149 | The cache entry goes even when the statement fails |
| KvSpec.CoherenceKeptIff | src/main.cpp:12-149 | For every request, state and fate of its statement: the cache stays a part of the table exactly when the request is not a create whose insert is lost |
| KvSpec.AnswersIff | src/main.cpp:30-149 | For every request and state, when each status, body and cache status is answered, both ways |
| KvSpec.TableAfter | src/main.cpp:12-149 | For every request and every key, what the table holds afterwards |
| KvSpec.CacheAfter | src/main.cpp:30-149 | For every request and every key, what the cache holds afterwards: the value created, updated or read from the table; nothing for a deleted key, even if its statement failed; every other key what it held, unless a put evicted it |
| KvSpec.ReadYourWrites | src/main.cpp:30-149 | A read right after a create, a successful update or a read of the same key is answered from the cache with that value; after a delete it is not |
| KvSpec.TransparentIff | src/main.cpp:30-149 | One request gets the status and body of the server without cache exactly when it is not a hit whose SELECT would have failed; the table changes alike in any case |
| KvSpec.CacheIsTransparent | src/main.cpp:30-149 | Over every trace under the stated premises every response has the status and body it would have with no cache, and the tables agree |
| KvSpec.InclusionStep | src/main.cpp:30-149 | One request served by two caches of different capacity keeps the smaller one's lists prefixes of the larger one's |
| KvSpec.BiggerNeverLosesAHit | src/main.cpp:30-149 | Over every trace under the premises each HIT of the smaller cache is a HIT of the larger |
| KvSpec.MoreCapacityMoreHits | src/main.cpp:30-149 | The same from a cold start, stated of the total capacities given to the constructor |
| Interleaving.CachedValuesAreFromThePast | src/main.cpp:30-149 | In every interleaving of any number of handlers each cached value was at some earlier moment the table's value for its key |
| Interleaving.CacheStepLookup | src/main.cpp:30-149 | A step changes the cache entry of a key only as the handler of that key asks, or by evicting it for another key that is put; a hit changes no entry |
| Interleaving.AloneIsHandle | src/main.cpp:30-149 | The steps are the handlers': in every world, whatever other handlers are in flight and whatever becomes of its statement, a handler that runs alone to its end leaves table and cache as KvSpec.Handle does |
| Interleaving.AloneCanRun | src/main.cpp:30-149 | From every world there is such a run |
| Interleaving.StepKeepsKeyInv | src/main.cpp:30-149 | One cache call or statement of any handler keeps the invariant of a key, evictions by other keys included |
| Interleaving.QuietKeysAreCoherent | src/main.cpp:30-149 | In every run where the handlers of k that overlap are reads with reads, deletes with deletes, or creates and updates of one value, whenever no handler of k is in flight its cache entry is absent or equals the table |
| Interleaving.ReadOverlappingWriteCanGoStale | src/main.cpp:48-149 | Every writer of k overlapping a read of k can leave the cache stale for good: the run, for any such handlers |
| Interleaving.OverlappingWritesCanGoStale | src/main.cpp:30-149 | So can any two overlapping writers of k that disagree, unless the first is a delete: the run |
| Interleaving.AlwaysRightIff | src/main.cpp:30-149 | For every set of handlers of one key: its entry is right at every quiet moment of every run in which they arrive, any number of times and among any handlers of other keys, if and only if every two of them are compatible |
| ConnectionPool.DBPool.constructor | include/database.h:23-34 | The queue holds exactly the connections that opened, each once |
| ConnectionPool.DBPool.GetConnection | include/database.h:44-52 | Past its wait the front connection is taken |
| ConnectionPool.DBPool.ReleaseConnection | include/database.h:54-58 | The connection goes to the end of the queue |
| PoolProtocol.StepKeepsPartition | include/database.h:44-58 | Every step of every thread keeps free and held connections a partition of the opened ones, none in two places |
| PoolProtocol.StepKeepsNoLostWakeup | include/database.h:44-58 | Every step keeps: while a thread sleeps un-notified, free connections are no more than notified threads on their way |
| PoolProtocol.PoolIsSafe | include/database.h:44-58 | Both hold in every state of every run, spurious wake-ups included |
| PoolProtocol.PoolIsAQueue | include/database.h:44-58 | First in, first out over every run: the connections taken and those still free are, in order, those free at first and those released |
| PoolProtocol.SleepersWaitForAHolder | include/database.h:44-58 | When a thread sleeps and none is on its way, every connection is in a handler's hands |
| PoolProtocol.EnoughConnectionsNeverWait | include/constants.h:16-23 | With at least as many opened connections as threads no thread ever sleeps |
| PoolProtocol.TooFewConnectionsCanWait | include/database.h:44-52 | With fewer free connections than idle threads some run puts one to sleep |
| ThreadPool.JobQueue.Enqueue | include/httplib.h:884-895 | Refused exactly when a bounded queue is full; otherwise the job goes to the end; the same test the protocol makes |
| ThreadPool.JobQueue.Next | include/httplib.h:916-929 | Past the wait predicate: sleep, return, or take the front job, as in the protocol |
| ThreadPool.EnqueueIff | include/httplib.h:884-895 | In the protocol a job is refused, changing nothing, exactly if the queue is bounded and full; otherwise it is last in the queue and a notification is due |
| ThreadPool.QueueBounded | include/httplib.h:884-895 | In every run a bounded queue stays within its bound |
| ThreadPool.StepKeepsOrder | include/httplib.h:884-939 | Every step keeps jobs in order of acceptance, each taken once, running in one worker or completed, not both |
| ThreadPool.StepKeepsWakeups | include/httplib.h:884-939 | Every step keeps: while a worker sleeps, queued jobs are no more than notifications sent or still to be sent |
| ThreadPool.PoolIsSafe | include/httplib.h:884-939 | Order, wake-ups and shutdown hold in every state of every run |
| ThreadPool.NeverStuck | include/httplib.h:916-929 | A queued job never coexists with all workers asleep and no notification on its way |
| ThreadPool.JoinedMeansCompletedIff | include/httplib.h:897-910 | With all workers joined every accepted job has completed exactly if none was accepted after the last worker returned; so if none was after shutdown |
| ThreadPool.JobLostAfterLastExit | include/httplib.h:884-895 | enqueue has no test of the shutdown flag: for every set of workers and every bound, the run in which it accepts a job that never starts |
| MultipartParser.FormDataParser.BufFind | include/httplib.h:5787-5808 | The double loop returns the first occurrence among the unconsumed bytes, or their number |
| MultipartParser.FormReceiver.OnContent | include/httplib.h:7839-7850 | The data is appended to the part taken last, and to no other |
| MultipartParser.FormDataParser.BodyState | include/httplib.h:5692-5714 | All bytes before the delimiter are delivered, or as many as cannot begin one |
| MultipartParser.FormDataParser.BoundaryState | include/httplib.h:5715-5731 | After a boundary: a new part, the end with the epilogue dropped, or more bytes needed |
| MultipartParser.FormDataParser.BufAppend | include/httplib.h:5810-5826 | Shifting down in place, growing or neither: the unconsumed bytes are the old ones followed by the new |
| MultipartParser.FormReceiver.OnHeader | include/httplib.h:7823-7838 | Takes parts up to the limit of 1024 and refuses the next |
| MultipartParser.FormDataParser.ReadHeader | include/httplib.h:5626-5685 | A header line changes the part as specified, or is refused and clears validity |
| MultipartParser.FormDataParser.HeaderState | include/httplib.h:5611-5691 | The nested loop over header lines does what the specification's step does, whichever lines have arrived |
| MultipartParser.FormDataParser.Parse | include/httplib.h:5592-5736 | For every state, buffer and chunk: the same success, state, unconsumed bytes and parts as the specification, and the loop ends |
| MultipartParser.ParseDispositionParams | include/httplib.h:5375-5397 | The parameters of a disposition, exact repetitions left out, by nested splitting |
| MultipartParser.ReadFormData | include/httplib.h:7873-7916 | Feeding the serialized form of any safe items, or of items with any other fields, cut in any way, succeeds exactly when there are at most 1024 of them and yields those parts |
| MultipartSpec.FindInPrefix | include/httplib.h:5787-5808 | What a search finds when only the beginning of the bytes has arrived |
| MultipartSpec.SerializeFormData | include/httplib.h:5902-5915 | The loop of the serializer against its recursive specification |
| MultipartHeaders.ReadDisposition | include/httplib.h:5650-5668 | Whatever was read before, a written disposition line gives back name and file name, for every plain name, with or without a file name |
| MultipartHeaders.ReadContentType | include/httplib.h:5644-5648 | Whatever was read before, a written content type line gives back the type |
| MultipartHeaders.FormDataIff | include/httplib.h:5650-5657 | What the regular expression matches and captures, both ways: a field name, blanks, "form-data;", blanks, the parameters |
| MultipartHeaders.ContentTypeIff | include/httplib.h:5644-5648 | Whether a line is about the type is decided by its field name |
| MultipartHeaders.TakenIff | include/httplib.h:5626-5685 | Which lines are taken: field lines that are no form-data disposition, or one with a name and with no extended file name but one in UTF-8 |
| MultipartHeaders.TakenInto | include/httplib.h:5626-5685 | What a taken line does: the field joins the headers; a type line sets the type, a disposition the names; any other line changes nothing else |
| MultipartHeaders.FindIff | include/httplib.h:5659-5671 | The value found is that of the first parameter of the name |
| MultipartHeaders.ParameterListRead | include/httplib.h:5375-5397 | Every list of different plain parameters, quoted or not, is read as it was written, in order |
| MultipartHeaders.RepeatedParameter | include/httplib.h:5375-5397 | A parameter repeated exactly counts once |
| MultipartHeaders.ParameterForms | include/httplib.h:5382-5395 | Parameters without an equals sign, with several, or with nothing else |
| MultipartHeaders.ReadOther | include/httplib.h:5626-5685 | A field of any other name is taken and joins the headers |
| MultipartBody.IsMultipartBoundaryCharsValid | include/httplib.h:5860-5870 | Decides the boundary alphabet |
| MultipartBody.DelimiterArrived | include/httplib.h:5692-5716 | However much has arrived, a delimiter is found at the end of the content or not at all, never inside or across it |
| MultipartBody.StepOnTrack | include/httplib.h:5597-5733 | Each of the five states, with any part of the bytes still to come, moves to the right next position or waits, and fails only at part 1025 |
| MultipartBody.FeedOnTrack | include/httplib.h:5592-5736 | So does any sequence of chunks, empty ones included |
| MultipartRoundTrip.MultipartRoundTripIff | include/httplib.h:5592-5736 | The same for what the serializer writes of all non-empty lists of safe items |
| MultipartRoundTrip.OtherFieldsDelivered | include/httplib.h:5592-5736 | For all plain items with any settable fields of other names anywhere in their headers, every cutting delivers the items with those fields added, in the order in which they came |
| MultipartRoundTrip.SerializedIsClosed | include/httplib.h:5902-5915 | What the serializer writes are parts with just the item's lines |
| MultipartRoundTrip.ParsedCarry | include/httplib.h:5902-5915 | The delivered parts carry the items' names, file names, types and contents |
| MultipartBody.QuietLinesTaken | include/httplib.h:5611-5691 | Lines that are neither blank nor refused nor too long, arriving in any pieces, are taken as headers of a part that never comes |
| MultipartBody.PreambleRoundTripIff | include/httplib.h:5592-5736 | Section 5.1.1 of RFC 2046: for all non-empty lists of parts with takeable header lines below 8192 bytes and contents free of the delimiter, any preamble, any quiet epilogue and every cutting, parsing succeeds and ends valid exactly when there are at most 1024 parts, with every part delivered in order |
| MultipartCutting.RunPart | include/httplib.h:5606-5714 | A whole part in the buffer is delivered by one call |
| MultipartCutting.TakeLines | include/httplib.h:5611-5691 | A whole header block in the buffer is taken whatever the length of its lines after the first |
| MultipartCutting.EveryCuttingSucceedsIff | include/httplib.h:5611-5691 | For all bodies of at most 1024 parts: every cutting is parsed if and only if every header line is takeable and below 8192 bytes |
| MultipartCutting.OneChunkSucceedsIff | include/httplib.h:5611-5691 | In a single chunk they are parsed if and only if every header line is takeable and the first of each part within 8192 bytes; the others may have any length |
| MultipartCutting.RunClosing | include/httplib.h:5721-5726 | What follows the closing boundary in the same chunk is dropped |
| MultipartCutting.EpilogueChunkIgnoredIff | include/httplib.h:5597-5733 | For every chunk that comes after the closing boundary: it is taken without adding a part if and only if it does not begin with a line end, or the first line after that is within the limit and no complete line is blank or refused |
| MultipartCutting.ExtraPart | include/httplib.h:5614-5624 | Two line ends after the closing boundary deliver one more part, without a name, and the parser stays valid |
| MultipartCutting.StuckAfterBoundary | include/httplib.h:5715-5731 | Two other bytes after a boundary leave the parser waiting for ever: it ends neither failed nor further |
| MultipartCutting.EpilogueIgnoredIff | include/httplib.h:5592-5736 | Section 5.1.1 of RFC 2046: for all safe parts and every epilogue e, all cuttings of body and epilogue deliver just the parts if and only if e is quiet: after its first line end, if it has one, no line is blank, not takeable or over the limit |
| Text.ToHex | include/httplib.h:2764-2772 | The hexadecimal numeral of the number, without leading zeros |
| Text.ValueOfPrint | include/httplib.h:2764-2772 | Its value, and that of a decimal one, is the number printed |
| Text.PrintCanonical | include/httplib.h:2764-2772 | Without leading zeros, in lower case |
| Chunked.WriteData | include/httplib.h:5079-5087 | All the data is written however little each write takes, or the stream has failed |
| Chunked.DataSink.Write | include/httplib.h:5199-5221 | A non-empty write goes out as one chunk; an empty one ends the content |
| Chunked.DataSink.Done | include/httplib.h:5225-5264 | The last chunk, the trailer fields and the blank line |
| Chunked.WriteContentChunked | include/httplib.h:5190-5287 | Whatever the provider does in its calls and whenever the server shuts down, what is on the wire and the outcome are as specified, unless the stream fails |
| Chunked.ReadContentWithLength | include/httplib.h:4737-4757 | Exactly the next bytes, as many as asked for; false only on a read error or when the stream is shorter |
| Chunked.ReadContentChunked | include/httplib.h:4801-4924 | Without a read error the outcome, the content, the trailers and what is left in the stream are a function of the bytes, not of their fragmentation; and for content in chunks, any Trailer header and any trailer lines, what TrailersRead says |
| Chunked.StrtoulIs | include/httplib.h:4817-4820 | What strtoul makes of blanks, a sign, a prefix, digits and anything after them, with wrap-around and cut-off |
| Chunked.StrtoulNone | include/httplib.h:4817-4819 | Without a digit there is no number |
| Chunked.RoundIs | include/httplib.h:4814-4843 | For any size line and any bytes after it: an error, too large, the last chunk, or a chunk of data |
| Chunked.StrtoulOfPrint | include/httplib.h:4817-4820 | strtoul reads a printed size back |
| Chunked.RoundOfChunk | include/httplib.h:4814-4843 | A chunk at the front of any bytes is read as its data, or is too large, by the payload limit |
| Chunked.DechunkOfChunks | include/httplib.h:4801-4843 | So is any sequence of chunks, as the concatenation |
| Chunked.TrailersOfLines | include/httplib.h:4897-4921 | Written trailer fields are read back as those that were declared |
| Chunked.DeclaredIff | include/httplib.h:4882-4895 | For every list of names joined by commas, with blanks or without: a name is declared, ignoring case, exactly if it is among them and is none of the 26 prohibited ones |
| Chunked.TrailersRead | include/httplib.h:4859-4924 | Section 7.1.2 of RFC 9112: the trailers delivered are exactly the fields of the lines that parse and whose names the Trailer header lists and that are not prohibited, in order; any other line is passed over; a line over 8192 bytes or after 100 fields is an error |
| Chunked.DeliveredIff | include/httplib.h:4912-4918 | A field is delivered exactly if it is wanted and is the field of a line |
| Chunked.SectionMissing | include/httplib.h:4859 | The trailer section may be missing altogether |
| Chunked.ChunkedRoundTripIff | include/httplib.h:4801-4924 | Section 7.1 of RFC 9112: any non-empty writes and trailers, followed by any bytes, are read back exactly, leaving exactly what follows, when within the payload limit; otherwise the content is too large |
| Chunked.ServedCompletely | include/httplib.h:5272-5286 | However a provider spreads its writes over its calls, all of it is sent, whichever way it ends the content |
| Chunked.SentIff | include/httplib.h:5272-5286 | When sending succeeds: the server shuts down, or a call succeeds whose last act finishes the content or writes zero bytes, after calls that go on |
| Chunked.ReadBackOfServed | include/httplib.h:5272-5286 | For every provider, whatever it does and returns and whenever the server shuts down, what is put on the wire is read as the non-empty writes before it finishes; as an error if it never does; as too large by the payload limit |
| Chunked.SentReadsBackIff | include/httplib.h:5272-5286 | Sending has succeeded: within the payload limit the content can be read if and only if the provider has finished it |
| Chunked.EndedReadsBackIff | include/httplib.h:5199-5221 | A provider whose content is ended once, by finishing it or by a write of zero bytes, is always reported as sent, and can be read if and only if it was finished |
| Ranges.RangeError | include/httplib.h:5973-6039 | In terms of the request as it came: 416 exactly if there are more than 1024 ranges, one that cannot be satisfied, or more than two that ask for a byte an earlier one asks for; otherwise the ranges left cover exactly the bytes asked for |
| Ranges.Validate | include/httplib.h:5988-6032 | The loops with their early returns decide: all in bounds and at most two overlapping an earlier one |
| Ranges.CoalesceRanges | include/httplib.h:5917-5971 | For whatever order the sort chooses among equal firsts, the in-place loop leaves the merge of that order |
| Ranges.MergeOneKeeps | include/httplib.h:5927-5968 | One more range keeps the covered bytes, the bounds, the order and the total |
| Ranges.TotalBound | include/httplib.h:6021-6029 | Lengths add up to at most the bytes of the disjoint ranges plus one content length for each overlapping one |
| Ranges.AcceptedTotal | include/httplib.h:5973-6039 | Section 14.2 of RFC 9110: an accepted request asks for at most three times the content |
| Ranges.AcceptedRanges | include/httplib.h:5973-6049 | Every range that remains is within the content, so the assertions of get_range_offset_and_length hold; byte b is covered exactly if some requested range asks for it; firsts do not decrease; two ranges leave a gap or begin together; lengths sum to at most three times the content |
| Ranges.AcceptableIff | include/httplib.h:5986-6032 | What the validating loop accepts, in terms of the request as it came |
| Ranges.DistinctAreSeparate | include/httplib.h:5952-5967 | If no two requested ranges ask for the same bytes, those served leave gaps between them |
| Ranges.ThreeTimesIsReached | include/httplib.h:5956-5967 | The bound is tight |
| Ranges.SuffixAcceptedIff | include/httplib.h:5997-6019 | A suffix range is accepted exactly if the content is at least as long; section 14.1.2 of RFC 9110 accepts longer ones |
| RangeHeader.MakeRangeHeader | include/httplib.h:6743-6755 | The header value as a join of printed ranges |
| RangeHeader.ParseRangeHeader | include/httplib.h:5402-5447 | Accepts and yields what the specification does; the overflow exception is a refusal |
| RangeHeader.ParseHeaderIff | include/httplib.h:5402-5447 | Any value: accepted, and read as these ranges, exactly if it is "bytes=" and a comma-separated list of them |
| RangeHeader.SplitOfJoin | include/httplib.h:2983-3003 | Splitting the printed list with trimming gives back each printed range |
| RangeHeader.RoundTripIff | include/httplib.h:5402-5447 | Section 14.1.2 of RFC 9110: a printed list is parsed back to itself exactly if it is non-empty and every range in it is valid |
| Text.TrimBetween | include/httplib.h:2934-2943 | The trimmed part of a part of a text; on blank parts the two positions may cross |
| Text.SplitLoop | include/httplib.h:2983-3003 | Exactly the trimmed non-empty parts between delimiters, in order |
| Text.SplitConcat | include/httplib.h:2983-3003 | Splitting distributes over concatenation at a delimiter |
| Query.EncodeQueryComponent | include/httplib.h:6654-6706 | The loop against the per-character coding |
| Query.DecodeQueryComponent | include/httplib.h:6708-6731 | The loop against the specification, the signs and blanks strtoul accepts included |
| Query.ComponentRoundTrip | include/httplib.h:6654-6731 | Decoding undoes encoding for every byte string, with either treatment of spaces |
| Query.EncodedIsPlain | include/httplib.h:6654-6706 | An encoded component has no delimiter and no blank, and is empty only for the empty string |
| Query.EncodeCharIs | include/httplib.h:6654-6706 | Which bytes stand for themselves, and what becomes of the others |
| Query.PairValueIff | include/httplib.h:6714-6723 | Which two characters after a percent sign are taken for a byte, and for which |
| Query.DecodeLone | include/httplib.h:6714-6723 | A percent sign that begins no number stays |
| Query.PieceInjective | include/httplib.h:5325-5335 | Different parameters print differently |
| Query.ParseQueryText | include/httplib.h:5337-5358 | Repeated parts skipped, empty keys dropped, keys and values divided at the first equals sign and decoded, in multimap order |
| Query.ParseAppends | include/httplib.h:5337-5358 | Read into parameters that are there already, as a form body after a query, all of them stay and the values read come behind them, key by key |
| Query.ParseMore | include/httplib.h:5340-5357 | What one more part of any form does, with or without an equals sign, a key or a repetition |
| Query.LessIff | include/httplib.h:5355 | The order in which the keys are kept |
| Query.QueryRoundTrip | include/httplib.h:5325-5358 | For every multimap of byte strings parsing the printed form gives it back in order, without empty keys and exact duplicates |
| Query.QueryRoundTripIff | include/httplib.h:5325-5358 | So it comes back unchanged exactly when it has neither |
| Headers.IsFieldContent | include/httplib.h:2694-2717 | Decides the field value syntax: visible at both ends, blanks allowed between |
| Headers.DecodePathComponent | include/httplib.h:6618-6652 | The loop with its two kinds of escapes against the specification |
| Headers.DecodePathIdentity | include/httplib.h:6618-6652 | A text without percent signs is unchanged |
| HeaderGrammar.DecodePathIs | include/httplib.h:6618-6652 | Any text: every escape is replaced by the byte, or the UTF-8 bytes, it stands for; everything else stays, malformed escapes included |
| HeaderGrammar.EncodedBytesDecode | include/httplib.h:6618-6652 | Any byte string in percent encoding is decoded to itself |
| HeaderGrammar.Utf8Is | include/httplib.h:2774-2804 | The bytes of a code are its UTF-8 encoding; surrogates have none |
| HeaderGrammar.TokenCharIff | include/httplib.h:2672-2676 | Section 5.6.2 of RFC 9110: a token character is a visible one that is no delimiter |
| HeaderGrammar.IgnoringCaseIff | include/httplib.h:4678-4679 | On ASCII, case-insensitive equality is equality up to the case of letters |
| Headers.ParseHeader | include/httplib.h:4644-4689 | The three pointer scans accept and yield what the specification does |
| HeaderGrammar.ParseLineIff | include/httplib.h:4644-4689 | A line is accepted exactly if it is a field name, a colon and a field value with blanks around it, and is then stored so |
| HeaderGrammar.StoredIs | include/httplib.h:4678-4683 | URLs are kept as they are, other values percent-decoded |
| Headers.ReadHeaders | include/httplib.h:4691-4735 | Without a read error, the fields and what is left in the stream depend on the bytes only |
| HeaderGrammar.BlockReadIff | include/httplib.h:4691-4735 | A block of any lines is read exactly if every line is a field line of at most 8192 bytes and there are at most 100, as their fields in order, stopping right after the blank line |
| HeaderGrammar.UnfinishedBlock | include/httplib.h:4698-4713 | A stream that ends before the blank line is refused |
| Headers.WriteHeaders | include/httplib.h:5060-5077 | Every field as a line, then the blank line |
| HeaderGrammar.WrittenLines | include/httplib.h:5060-5077 | Every field as name, colon, blank and value in a line of its own, then the blank line |
| Headers.ParseOfLine | include/httplib.h:4644-4689 | A line written for a field accepted by set_header is parsed back to it |
| Headers.BlockRoundTripIff | include/httplib.h:4691-4735 | Section 5 of RFC 9112: for all fields accepted by set_header and any following bytes, the written block is read back, values percent-decoded unless Location or Referer, stopping right after the blank line, if there are at most 100 fields with lines within 8192 bytes; otherwise it is refused |
| Headers.StoredUnchanged | include/httplib.h:4678-4683 | Values without a percent sign come back as they were |
| SocketStream.SocketStream.Read | include/httplib.h:7089-7133 | For any size and any fragmentation: a prefix of the remaining bytes is delivered, the others remain in order, and nothing is delivered only at their end |
| SocketStream.StreamLineReader.Append | include/httplib.h:3071-3082 | The switch from the fixed to the growable buffer is invisible |
| SocketStream.StreamLineReader.GetLine | include/httplib.h:3031-3069 | Exactly the bytes through the first line end, or to the end of the stream; false only at the end, on a read error, or for a line over 32768 bytes |
| SocketStream.LineFitsIff | include/httplib.h:3039-3044 | Which lines are delivered: up to 32768 bytes with the line end, fewer without |
| SocketStream.CrlfLine | include/httplib.h:3031-3069 | A text without carriage returns and its line end are one line of any stream they begin |
| Base64.Base64Encode | include/httplib.h:2808-2834 | Although the accumulator keeps 32 bits, the output is the encoding by groups of three bytes with padding |
| Base64.Encoded | include/httplib.h:2808-2834 | The encoding of n bytes has 4 * ceil(n / 3) characters |
| Base64.LetterIsTable | include/httplib.h:2809-2810 | Table 1 of RFC 4648 |
| Base64.Int32Is | include/httplib.h:2815-2820 | The accumulator holds the same number modulo 2 to the 32nd, within its range |
| Base64.StepKeeps | include/httplib.h:2818-2825 | One byte keeps the loop's state whatever has overflowed out of the accumulator |
| Base64.DecodeOfEncoded | include/httplib.h:2808-2834 | Section 4 of RFC 4648: a reference decoder returns the input |
| Base64.DecodesIffEncoded | include/httplib.h:2808-2834 | That decoder yields s exactly for the encoding of s, so the encoding is injective and canonical |

## Left out

- KvHandlers.Server.ExecSql: whether a statement completes is a parameter; collation, length limits and what the driver does beyond that are not modelled, keys and values are compared byte by byte.
- KvHandlers.Server.HandleUpdate: whether the driver counts matched or changed rows is a parameter, everything is proved for both.
- KvHandlers.Server.HandleRead: a connection lost after a statement has taken effect, and exceptions other than SQL exceptions between acquiring and releasing a connection, are not modelled.
- ConnectionPool.DBPool.GetConnection: the wait is in PoolProtocol, where threads are values; fairness of the mutex, and so eventual service, is not modelled.
- ConnectionPool.DBPool.ReleaseConnection: the notification is in PoolProtocol.
- ThreadPool.JobQueue.Enqueue: the notification after the unlock is a step of the protocol.
- ThreadPool.StepKeepsOrder: JobQueue has the fields the mutex guards; the worker threads are values of a state machine, because their behaviour is in their interleavings; a job is a number, and that it returns is a step that may or may not come.
- ShardedCache.ShardedLRUCache.GetShardIndex: the library's string hash is any function.
- MultipartParser.FormReceiver.OnHeader: the receiver keeps parts in order of arrival, not in the two multimaps by name, and its refusals for memory are not modelled; a text field's content type, which the server drops, is kept.
- MultipartParser.FormDataParser.ReadHeader: the two regular expressions are written out as prefix tests and blank skipping.
- MultipartRoundTrip.MultipartRoundTripIff: names are visible characters, spaces and tabs other than ';', '=' and '"', which the disposition syntax of the serializer does not escape; contents do not contain the delimiter.
- Chunked.WriteContentChunked: the compressor is the identity; a provider that runs out of calls counts as one that returns false.
- Chunked.ReadContentWithLength: there is no progress callback and the receiver takes everything.
- Chunked.ReadContentChunked: the receiver takes everything, and what it was given before an error is not stated; trailer fields are kept in order of arrival.
- Headers.ReadHeaders: fields are kept in order of arrival; the order of an unordered multimap is not modelled.
- Headers.WriteHeaders: it writes to a memory buffer, which takes everything, so negative results of a write do not occur.
- SocketStream.SocketStream.Read: polling is any success or failure, and sizes are below the platform's limit; writing to a socket is in Chunked.OutStream.
- Ranges.CoalesceRanges: std::sort is an insertion sort here; AcceptedRanges is proved for every order it may return.
- Text.SplitLoop: the limit on the number of parts, which these callers do not set, is left out, and so is running out of memory everywhere.
- Sockets, polling, name resolution, TLS, digest authentication, compression, static files, routing and redirects: operating system and foreign libraries.
- The client, the load generator, scripts and schema: wrappers and measurements without a hard property.

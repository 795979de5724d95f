# Cacheman in Dafny

Cacheman is a distributed in-memory key/value cache written in C#. A server keeps one table of byte values keyed by string. Clients talk to it over TCP using a line protocol:

- `GET key`, `DELETE key` and `SET key size ttl` each end with CR LF.
- A `SET` line is followed by exactly `size` bytes and CR LF.
- The server answers with one-line replies: `STORED`, `DELETED`, `NOT_FOUND` or `SERVER_ERROR ...`.
- A hit is answered with a `VALUE key size fnv` line followed by the data and CR LF.

A client library shards keys across several servers by hashing each key with 64-bit Fowler-Noll-Vo. It keeps a circuit breaker per server: a server that failed is not tried again for 120 seconds.

This project models that core and proves properties of it. There are seven modules, one per concern.

| file | module | models |
|---|---|---|
| `wrappers.dfy` | `Wrappers` | `Option` and `Result` |
| `ascii.dfy` | `Ascii` | ASCII encoding and decoding (non-ASCII becomes `?`); `Int64.ToString` (printed with the sign "-") and invariant-culture `Convert.ToInt64` |
| `network_helper.dfy` | `Network` | the receive buffer of `NetworkHelper` (a `class` whose `data` field is the `MemoryStream`); line and value framing; FNV; the bytes each send produces |
| `command.dfy` | `Commands` | `CommandType`, `Command`, `ParseCommand` and `GetStringCommand` |
| `store.dfy` | `Storage` | the server's table as a `class Store`: a map, a running byte total, lazy TTL expiry, and the expire-then-LRU eviction sweep |
| `cache_server.dfy` | `Server` | the per-connection record `Client`, and `CacheServer` with its state machine and command execution |
| `cacheman_client.dfy` | `ClientApi` | `CachemanClient`: key normalisation, shard choice, the breaker, and `Set`/`Get`/`Delete` |

Conventions used throughout:

- The clock is an integer number of seconds, passed as `now`.
- The bytes a socket delivers are a parameter: a sequence of received chunks. An empty chunk is a zero-byte read. Running out of chunks is a timeout.
- What a connection sends is returned, or accumulated in `Client.sent`.
- The server's capacity (`MAX_CACHE_MEMORY`, default 500,000,000) is a constructor parameter. The fill ratio 0.7 is the exact rational 7/10.

Two behaviours of the code are worth noting:

- The hash is FNV-1 (multiply, then XOR), not the better-known FNV-1a. `Network.Fnv1TestVector` pins the FNV-1 value for `"a"`, which FNV-1a does not produce.
- A `SET` whose size exceeds the capacity is refused with `SERVER_ERROR Item too large`. The client has already sent the body, and the server then reads those bytes as command lines. The model reproduces this behaviour and does not correct it.

## Model

| member | source | states |
|---|---|---|
| `Ascii.DecodeEncode` | cacheman/common/NetworkHelper.cs:271 | ASCII-decoding the ASCII encoding of an all-ASCII string gives the string back |
| `Ascii.ParseInt64` | cacheman/common/Command.cs:65-68 | a number is produced only inside the Int64 range; anything else is the exception (None) |
| `Ascii.ParseIntToString` | cacheman/common/Command.cs:87-92 | `Convert.ToInt64` reads back every Int64 that `ToString` prints |
| `Network.FindCrLfFrom` | cacheman/common/NetworkHelper.cs:227-256 | the result is the first CR LF pair at or after the start; None means there is none |
| `Network.SplitLineExtracted` | cacheman/common/NetworkHelper.cs:230-292 | a line is extracted iff the buffer is line + CR LF + rest, with no earlier CR LF pair in the line |
| `Network.SplitLinePending` | cacheman/common/NetworkHelper.cs:297-303 | no line is found iff no CR is immediately followed by LF (a lone CR does not end a line); line mode is never malformed |
| `Network.SplitLineExtend` | cacheman/common/NetworkHelper.cs:153-162 | bytes appended after a complete line leave that line unchanged and join the rest |
| `Network.SplitValueExtracted` | cacheman/common/NetworkHelper.cs:61-105 | a value is extracted iff the buffer is exactly `size` bytes, CR LF, and the rest |
| `Network.SplitValueOutcomes` | cacheman/common/NetworkHelper.cs:62-80 | "not yet" iff fewer than size+2 bytes are buffered; malformed iff enough bytes but a negative size or no CR LF after the payload |
| `Network.NetworkHelper.Receive` | cacheman/common/NetworkHelper.cs:153 | a receive appends the chunk to the buffer |
| `Network.NetworkHelper.TryReadLine` | cacheman/common/NetworkHelper.cs:203-304 | the byte-scanning loop returns the decoded line and leaves exactly the bytes after CR LF, or returns None and leaves the buffer untouched |
| `Network.NetworkHelper.TryReadValue` | cacheman/common/NetworkHelper.cs:61-108 | returns the payload and slides the rest to the front; not yet and malformed leave the buffer as it was |
| `Network.NetworkHelper.ReadLine` | cacheman/common/NetworkHelper.cs:109-194 | a blocking line read: buffered bytes first, then append each chunk and retry; a zero-byte read is an error; running out of chunks is a timeout |
| `Network.NetworkHelper.ReadValue` | cacheman/common/NetworkHelper.cs:32-59 | the same loop in value mode; a malformed terminator is an error |
| `Network.AwaitMessage` | cacheman/common/NetworkHelper.cs:131-162 | a line that arrives whole in one chunk is delivered, and what followed it stays buffered |
| `Network.AwaitLineAssembles` | cacheman/common/NetworkHelper.cs:131-162 | when no receive returns zero bytes, a line split across any number of receives is delivered as the first line of all the bytes. The bytes left (buffer, then unread receives) are exactly the rest. With no CR LF in all of it, the read times out holding every byte |
| `Network.AwaitValueAssembles` | cacheman/common/NetworkHelper.cs:32-80 | the same for a value frame split across receives: it is delivered with the rest left in order, it fails as malformed when the bytes cannot start a frame, and it times out while too few bytes have come |
| `Network.SplitValueExtend` | cacheman/common/NetworkHelper.cs:62-80 | once enough bytes are buffered to decide a value frame, more bytes do not change the decision, and after a frame they join the rest |
| `Network.NetworkHelper.FNVHash` | cacheman/common/NetworkHelper.cs:310-323 | the loop computes FNV-1 over the bytes (offset basis 14695981039346656037, prime 1099511628211, modulo 2^64) |
| `Network.Fnv1TestVector` | cacheman/common/NetworkHelper.cs:313-320 | FNV-1 of "a" is 0xaf63bd4c8601b7be |
| `Network.NetworkHelper.SendHeaderAndBody` | cacheman/common/NetworkHelper.cs:327-339 | the wire bytes are the ASCII header, CR LF, the data and CR LF; the length is header + data + 4 |
| `Network.NetworkHelper.SendValue` | cacheman/common/NetworkHelper.cs:340-343 | a `VALUE key length hash` header followed by the data |
| `Network.NetworkHelper.SendError` | cacheman/common/NetworkHelper.cs:350-355 | one `SERVER_ERROR err` line |
| `Network.NetworkHelper.SendMessage` | cacheman/common/NetworkHelper.cs:357-362 | one line |
| `Network.MessageRoundTrip` | cacheman/common/NetworkHelper.cs:357-362 | a message without LF, followed by anything, reads back as exactly that line |
| `Network.HeaderAndBodyRoundTrip` | cacheman/common/NetworkHelper.cs:327-339 | reading a line and then a value of the data's length recovers the header and the data, and leaves what followed |
| `Network.ValueHeaderIsLine` | cacheman/common/NetworkHelper.cs:342 | for an ASCII key without LF, the VALUE header is one ASCII line |
| `Commands.ParseKeyword` | cacheman/common/Command.cs:57 | exactly the five keyword names parse, each to its own kind |
| `Commands.Split` | cacheman/common/Command.cs:52 | `Split(' ')` yields at least one token, and no token contains a space |
| `Commands.JoinSplit` | cacheman/common/Command.cs:52 | splitting loses nothing: rejoining with single spaces rebuilds the line |
| `Commands.SplitJoin` | cacheman/common/Command.cs:52 | space-free tokens joined by spaces split back into the same tokens |
| `Commands.ParseCommand` | cacheman/common/Command.cs:43-76 | it fails as an unknown command iff the keyword is unknown. It fails with a missing token iff GET/DELETE lack a key or SET/VALUE lack a key or size. It fails with a bad number iff the size, or SET's optional fourth token, is not an Int64. It succeeds in every other case, extra tokens included. On success the key is token 2 (none for SERVER_ERROR), the size is token 3 for SET/VALUE, and the TTL is token 4 for SET when present; the defaults are size 0 and TTL -1 |
| `Commands.GetStringCommandTokens` | cacheman/common/Command.cs:81-96 | the printed line is keyword, key, then size for SET/VALUE, then TTL for SET, joined by spaces |
| `Commands.GetStringCommand` | cacheman/common/Command.cs:81-96 | the printed command starts with the keyword, a space and the key, and GET/DELETE/SERVER_ERROR lines end there; `GetStringCommandTokens` and `ParseGetStringCommand` give the rest and the round trip |
| `Commands.ParseGetStringCommand` | cacheman/common/Command.cs:43-96 | round trip: parsing a printed command for a space-free key gives back its kind, key, size and TTL (defaults where not printed) |
| `Commands.ParseValueHeader` | cacheman/common/Command.cs:64-69 | the server's VALUE header parses to a VALUE command with the key and the data length; the hash token is never read as a TTL |
| `Commands.GetStringCommandIsLine` | cacheman/common/Command.cs:81-96 | a command printed for an ASCII key without LF is one ASCII line |
| `Storage.Unexpired` | cacheman/CachemanServer/Store.cs:67-82 | the expire pass keeps exactly the entries that are not expired, unchanged |
| `Storage.Touched` | cacheman/CachemanServer/Store.cs:42-43 | a read's bookkeeping keeps the data, TTL and time added |
| `Storage.GetIsRepeatable` | cacheman/CachemanServer/Store.cs:16-45 | reading again at the same time gives the same hit or miss and the same data |
| `Storage.AfterGetKeepsData` | cacheman/CachemanServer/Store.cs:16-45 | a read changes no stored data and no other key; the byte total drops only by an expired entry it removes |
| `Storage.ReadAfterStore` | cacheman/CachemanServer/Store.cs:16-47 | reading back the entry SetValue stored at time `added` returns its data and keeps it until the TTL has elapsed, and from then on returns nothing and drops it |
| `Storage.Lookup` | cacheman/CachemanServer/Store.cs:23-44 | a read returns data iff the key is present and its entry has not expired, and then it returns exactly the stored bytes |
| `Storage.TotalBytesRemove` | cacheman/CachemanServer/Store.cs:184-185 | removing an entry takes exactly its data length off the total |
| `Storage.TotalBytesInsert` | cacheman/CachemanServer/Store.cs:163-164 | inserting under a fresh key adds exactly its data length |
| `Storage.TotalBytesReplace` | cacheman/CachemanServer/Store.cs:42-43 | replacing an entry with one of the same length keeps the total |
| `Storage.EvictHead` | cacheman/CachemanServer/Store.cs:102-104 | the head of the sorted list is an entry of the table, is least recently accessed, and its removal keeps the list an exact sorted listing |
| `Storage.EvictStep` | cacheman/CachemanServer/Store.cs:95-105 | evicting the head of a sorted listing of the current table extends the evicted list in LastAccessed order and keeps it no more recent than any survivor. The tail lists what is left, and the total drops by the head's bytes |
| `Storage.EvictionNeededStep` | cacheman/CachemanServer/Store.cs:95-97 | an eviction taken while the loop condition holds keeps "the condition held before every eviction" true |
| `Storage.EvictedIsSortedPrefix` | cacheman/CachemanServer/Store.cs:99-104 | what the LRU pass evicted, followed by any sorted listing of the survivors, is an exact listing of the table it started from, sorted by LastAccessed |
| `Storage.Store.constructor` | cacheman/CachemanServer/Store.cs:11-12 | an empty table with zero bytes stored and the configured capacity |
| `Storage.Store.GetValue` | cacheman/CachemanServer/Store.cs:16-47 | a miss returns null and changes nothing; an expired entry is removed and returns null; a hit returns the data, sets LastAccessed to now and adds one access. The result is `Lookup` of the old table |
| `Storage.Store.RemoveValue` | cacheman/CachemanServer/Store.cs:170-194 | reports whether the key was present; removes only that key and subtracts its length from the running total |
| `Storage.Store.GetSortedValues` | cacheman/CachemanServer/Store.cs:123-139 | every entry appears exactly once, in ascending LastAccessed order |
| `Storage.Store.CacheExpiry` | cacheman/CachemanServer/Store.cs:50-121 | the survivors are the unexpired entries minus the evicted ones. The ghost `evicted` list is taken from the unexpired entries in ascending LastAccessed order, each entry no more recent than any survivor, and the loop condition held before every eviction, so the sweep stops at the first point where it is false. It succeeds iff the needed size fits the capacity; otherwise the table is emptied |
| `Storage.Store.RemoveExpired` | cacheman/CachemanServer/Store.cs:57-82 | the collect-then-delete loops leave exactly the unexpired entries and keep the running total exact |
| `Storage.Store.EvictLeastRecent` | cacheman/CachemanServer/Store.cs:94-105 | the evicted entries, in order, are a prefix of a sorted listing of the table, the table loses exactly them and the total drops by their bytes. The loop condition held before each eviction and is false at the end, so it evicts exactly while above the fill ratio or while the needed size does not fit. It fails, with the table emptied, iff the needed size exceeds the capacity |
| `Storage.Store.SetValue` | cacheman/CachemanServer/Store.cs:141-168 | the key then maps to the new entry. Without a sweep nothing else changes. A sweep runs iff the write would overflow. It then removes every expired entry and evicts in LRU order while each eviction is needed, leaving the old total within the fill ratio with room for the data. Data larger than the capacity empties the table |
| `Storage.Store.Insert` | cacheman/CachemanServer/Store.cs:163-164 | stores the entry under an absent key and adds exactly its length to the running total |
| `Server.ParsedIsWellFormed` | cacheman/common/Command.cs:59-61 | every parsed command except SERVER_ERROR carries a key |
| `Server.ExecPreservesInvariant` | cacheman/CachemanServer/CacheServer.cs:229-285 | a command step keeps the connection invariant, touches only the command's key, never adds bytes, and moves to ReadValue iff it is a SET that fits |
| `Server.Exec` | cacheman/CachemanServer/CacheServer.cs:229-285 | the connection moves to ReadValue iff the command is a SET that fits, with ValueTotalBytes its size and nothing sent. The table only loses keys, and only GET and DELETE change it. Something is sent iff the command is a GET, a DELETE or an oversize SET |
| `Server.NoStepWhenIdle` | cacheman/CachemanServer/CacheServer.cs:138-167 | a disposed connection, or one without a complete frame, takes no pass |
| `Server.StepConsumesFront` | cacheman/common/NetworkHelper.cs:131-162 | a pass cuts its frame from the front of the buffer and keeps the rest |
| `Server.StepsConsumeFront` | cacheman/common/NetworkHelper.cs:131-162 | over a whole run, what stays buffered is what the connection had with the consumed frames cut from the front |
| `Server.GetHitReplyReadsBack` | cacheman/CachemanServer/CacheServer.cs:240-246 | the reply to a GET hit reads back as a VALUE line with the key and length, then exactly the stored data |
| `Server.DeleteReplyReadsBack` | cacheman/CachemanServer/CacheServer.cs:259-263 | the reply to DELETE is one line, and it is DELETED iff the key was stored |
| `Server.Client.Accept` | cacheman/CachemanServer/CacheServer.cs:103-109 | a new connection starts in ReadCommand with an empty buffer and nothing sent |
| `Server.Client.Dispose` | cacheman/CachemanServer/Client.cs:69-77 | the connection is shut down and nothing else changes |
| `Server.CacheServer.constructor` | cacheman/CachemanServer/Global.cs:25 | one empty store with the configured capacity |
| `Server.CacheServer.ExecCommand` | cacheman/CachemanServer/CacheServer.cs:229-285 | the new socket state, ValueTotalBytes, table and sent bytes are those of the command step. GET replies VALUE or NOT_FOUND. DELETE replies DELETED or NOT_FOUND. SET either refuses an oversize item or switches to reading the value |
| `Server.CacheServer.ReadCommandCallback` | cacheman/CachemanServer/CacheServer.cs:169-193 | a read error or a line that does not parse disposes the connection and changes nothing else; otherwise the parsed command is executed |
| `Server.CacheServer.ReadValueCallback` | cacheman/CachemanServer/CacheServer.cs:195-226 | a read error disposes. Otherwise the value is stored under the command's key and TTL, STORED is sent, and the state returns to ReadCommand. The table is what `Store.SetValue` leaves (`Stored`): unchanged apart from the key without a sweep, and only needed LRU evictions with one |
| `Server.CacheServer.StateMachine` | cacheman/CachemanServer/CacheServer.cs:138-223 | the ghost run goes from the connection and table before the call to those after it. Each pass in it is a `Step`: a line is cut in ReadCommand and parsed, then disposes or executes; a value of exactly ValueTotalBytes bytes is cut in ReadValue and stored, or disposes when malformed. The machine stops disposed or waiting for bytes, and a connection is disposed only by a parse failure or a malformed value |
| `Server.CacheServer.CommandPass` | cacheman/CachemanServer/CacheServer.cs:143-145 | with a line buffered it makes one `Step` through ReadCommandCallback; otherwise nothing changes and the connection waits |
| `Server.CacheServer.ValuePass` | cacheman/CachemanServer/CacheServer.cs:147-150 | with a complete or malformed value buffered it makes one `Step`; otherwise nothing changes and the connection waits |
| `Server.CacheServer.ReadCallback` | cacheman/common/NetworkHelper.cs:131-190 | a zero-byte read disposes and changes nothing else; otherwise the chunk is appended and the state machine's run starts from the buffer with the chunk appended |
| `ClientApi.NormalizeKey` | cacheman/CachemanAPI/CachemanClient.cs:117-123 | every space becomes NUL and every other character is kept |
| `ClientApi.NormalizeKeyHasNoSpace` | cacheman/CachemanAPI/CachemanClient.cs:117-123 | a normalised key is one command token |
| `ClientApi.NormalizeKeyIdempotent` | cacheman/CachemanAPI/CachemanClient.cs:117-123 | normalising twice is normalising once |
| `ClientApi.KeyHashIsFnv1` | cacheman/CachemanAPI/CachemanClient.cs:102-109 | for an ASCII key, the per-character key hash equals FNVHash of the key's ASCII bytes |
| `ClientApi.ServerIndex` | cacheman/CachemanAPI/CachemanClient.cs:112 | the chosen server is below the server count |
| `ClientApi.LineResponseReadsReply` | cacheman/CachemanAPI/CachemanClient.cs:165-168 | a one-line reply on an idle connection is compared exactly as sent |
| `ClientApi.GetResponseMiss` | cacheman/CachemanAPI/CachemanClient.cs:199-208 | a NOT_FOUND reply makes Get return nothing |
| `ClientApi.GetResponseHit` | cacheman/CachemanAPI/CachemanClient.cs:199-222 | the server's hit reply makes Get return exactly the stored data and leaves what followed buffered |
| `ClientApi.GetResponseOfValue` | cacheman/CachemanAPI/CachemanClient.cs:209-222 | after a VALUE line, the announced number of bytes is the result |
| `ClientApi.SetRequestReadsBack` | cacheman/CachemanAPI/CachemanClient.cs:149-164 | the Set request parses on a server as SET with the normalised key, length and TTL, followed by exactly the data |
| `ClientApi.KeyRequestReadsBack` | cacheman/CachemanAPI/CachemanClient.cs:197 | the Get and Delete requests parse on a server as that command with the normalised key |
| `ClientApi.CachemanClient.constructor` | cacheman/CachemanAPI/CachemanClient.cs:37-43 | one empty slot and no breaker mark per server |
| `ClientApi.CachemanClient.GetHashedServerIndex` | cacheman/CachemanAPI/CachemanClient.cs:95-114 | the loop computes the key hash modulo the server count; with no servers it throws |
| `ClientApi.CachemanClient.HandleBadServer` | cacheman/CachemanAPI/CachemanClient.cs:125-133 | clears slot i and marks it bad until now + 120 s; every other slot is kept |
| `ClientApi.CachemanClient.GetConnectedNetworkHelper` | cacheman/CachemanAPI/CachemanClient.cs:56-93 | while still marked it is unavailable and nothing changes. Otherwise the mark is cleared and an open connection is reused. A new connect fills the slot, or on failure marks the server bad |
| `ClientApi.CachemanClient.Route` | cacheman/CachemanAPI/CachemanClient.cs:148-158 | the start of every public call: the key's server, then its connection. A marked server is unavailable. A failed connect marks it bad. Otherwise the slot holds the open or newly connected helper. No servers: no index |
| `ClientApi.CachemanClient.ReadLineReply` | cacheman/CachemanAPI/CachemanClient.cs:165-168 | the reply line is read and compared with the expected word, as the reply-reading specification says, including what stays buffered |
| `ClientApi.CachemanClient.ReadGetReply` | cacheman/CachemanAPI/CachemanClient.cs:199-222 | the reply line and then the announced value are read, as the Get reply specification says, including what stays buffered |
| `ClientApi.CachemanClient.Set` | cacheman/CachemanAPI/CachemanClient.cs:134-176 | sends the SET line and the data to the key's server and returns true iff the reply is STORED. A marked server gives false. Any failure throws and marks that server bad. Every other server's slot and mark are unchanged, and the only open connection it may change is the one in the key's slot (`RoutedHelper`); since `Valid` keeps connections distinct across slots, no other server's buffered bytes change |
| `ClientApi.CachemanClient.Get` | cacheman/CachemanAPI/CachemanClient.cs:178-240 | sends GET. NOT_FOUND or a non-VALUE reply is a miss. A VALUE reply yields the following bytes of the announced size. Failures throw and mark the server bad. Every other server's slot and mark are unchanged, and the only open connection it may change is the one in the key's slot (`RoutedHelper`); since `Valid` keeps connections distinct across slots, no other server's buffered bytes change |
| `ClientApi.CachemanClient.Delete` | cacheman/CachemanAPI/CachemanClient.cs:242-265 | sends DELETE and returns true iff the reply is DELETED; a marked server gives false; failures throw and mark the server bad. Every other server's slot and mark are unchanged, and the only open connection it may change is the one in the key's slot (`RoutedHelper`); since `Valid` keeps connections distinct across slots, no other server's buffered bytes change |

## Left out

- Asynchronous plumbing: `AsyncNetworkOperation`, the `Begin`/`End` pairs and their callbacks. Each blocking read is modelled as a loop over the chunks received before the timeout.
- Server callbacks: the callback chain `StateMachine` → `BeginReadLine` → `ReadCommandCallback` → `StateMachine` is modelled as one loop per receive.
- Concurrency: threads, `TimeLock` with its 10-second contention timeout, and `Interlocked`. Each store operation is atomic in the model.
- Sockets: `SendImpl`, `SendRawData`, connect timeouts and socket options. A connect attempt's outcome is the `connectOk` parameter. Send failures are not modelled; on the client they would throw and mark the server bad like a read failure.
- `StartListening`, `StopListening`, `AcceptCallback` and `ConfigureClientSocket`. Accepting a connection is modelled only as the creation of the connection record (`Server.Client.Accept`).
- `Client.Connect`: it only calls `GetConnectedNetworkHelper` for every server.
- The client's endpoint list and the default constructors that resolve the local host name.
- `UniqueId`, `PendingRead` and the receive byte buffer of a connection.
- Not part of this model: logging (`Log`), performance counters, garbage-collection calls, `Stopwatch` timing, the Windows service wrapper, and command-line configuration (`Utils`, apart from the capacity it sets).
- `BinaryFormatter` serialisation in `Set`/`Get`. The model's `Set` takes the serialised bytes and its `Get` returns them.
- `Storage.OverFill`: the fill ratio is compared as the exact rational 7/10. The source divides as a double and compares with 0.7, which can differ in the last bit of rounding.
- Clock: integer seconds. `DateTime.AddSeconds` overflow for huge TTLs is not modelled, and neither is sub-second resolution. One `now` serves a whole operation, whereas the source reads the clock several times.
- `Storage.Value` counts accesses with an unbounded integer; the source's `long` could wrap. `storedBytes` is unbounded as well.
- `Commands.ParseKeyword` accepts exactly the five keyword names. `Enum.Parse` also accepts numeric values, comma-separated lists and surrounding white space.
- `Ascii.ParseInt64` accepts white space, a sign and decimal digits. Trailing NUL characters, which .NET also accepts, are left out.
- `Commands.GetStringCommand` prints its size and TTL with the invariant culture's "-" sign. The source calls the culture-sensitive `ToString()` (Command.cs lines 87 and 92, and the VALUE header at NetworkHelper.cs line 342). Under a culture whose negative sign is not "-", a negative TTL would be printed in a form the server's invariant-culture `Convert.ToInt64` rejects. The model does not capture that.
- `String.Intern` has no effect on values and is omitted.
- `Ascii.Encode` maps each character to one byte. A character outside the Basic Multilingual Plane is one `char` here, where .NET has two UTF-16 units and writes two `?` bytes.
- `ClientApi.KeyHash` hashes such a character as one unit for the same reason.
- `Storage.Store.GetSortedValues` sorts by repeated minimum selection instead of the library's unstable sort. Its contract fixes the order up to ties, so entries with equal LastAccessed may be evicted in a different order.
- Buffer position: the `MemoryStream` position is taken to equal its length between reads, which is where every operation of `NetworkHelper` leaves it. The consistency exception in `TryReadLine` (lines 284-289) cannot occur on a sequence buffer.
- The `NewConnection` state and the `StateMachine` default branch: accepted connections start in `ReadCommand`, so the connection invariant excludes it.
- `Debug.Assert` calls are not modelled (they are inactive in release builds).
- `Server.CacheServer.StateMachine` and `Server.CacheServer.ReadCallback` state their run as a relation between snapshots, not a function of the buffer, because a SET's evictions are fixed only up to LastAccessed ties.
- `Storage.Store.SetValue`: a value larger than the capacity makes the source throw from `sortedList[0]` after emptying the table. The model returns false with the table emptied. The server never calls it that way, because `ExecCommand` refuses such sizes first.

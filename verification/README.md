# A verified model of Redis-in-C

Redis-in-C is a single-threaded key/value server: a level-triggered `epoll` loop reads bytes from many
clients, a stateless RESP2 parser finds requests in them, 17 commands run over a chained hash table, and
encoded replies drain through a byte queue per client. This project models that server in Dafny, from
the byte queue up to the event loop, and proves that the layers fit together: whatever clients connect,
however their bytes are cut into reads, however little each `write` takes and whichever allocations are
refused, the server does what a serial map with one reply per request would do.

## How it is built

| layer | modules | shape |
|---|---|---|
| byte queue | `ByteBuffer` | a class over an array, refining a FIFO of bytes, with running totals of bytes moved |
| hash | `Hash` | `bv64` arithmetic, and the same fold on ten bits |
| table | `Table`, `HashTable` | chains as values, refining a finite map; linked nodes on the heap, refining the chains |
| numbers | `Decimal` | the guarded reader and the printer |
| patterns | `Glob`, `GlobBytes` | tokens, their declarative language, and the backtracking matcher; the language in bytes |
| requests | `Resp`, `Words`, `FrameBytes`, `Stream`, `Completable`, `RespParser` | the three-way parse as a function, what it means, the exact verdict on every buffer in bytes, its behaviour over streams, and the loops that compute it |
| replies | `Reply`, `WireBytes`, `ReplyWriter` | an encoder and an independent decoder; what goes over the wire in bytes; the serializers over the queue |
| commands | `CommandSpec`, `NameBytes`, `CommandMeaning`, `Determinacy`, `CommandProperties`, `KeysScan`, `Commands` | what dispatch does to the chains, which bytes name which command with how many arguments, what that means for the map, that this meaning is a function, what follows, and the handlers on the heap |
| event loop | `EventLoop`, `Runs`, `Departures`, `Limits` | a step machine over all connections with a log and a book per client, its invariant, and the statements about whole runs: consistency and conservation, how connections leave, independence of how input is cut, decodable replies |
| server | `Connection`, `Server` | the handlers and the list of connections on the heap; every event is one or more steps of the machine |
| surroundings | `Bytes`, `Environment` | byte strings; what the allocator and `epoll_ctl` may do |

The kernel is nondeterministic. A `read` loop is driven by a script of answers (chunks of any size up to
4096, EAGAIN, EINTR, end of file, failure), a `write` loop by a script of byte counts and errors, the
listener by a script of sockets. Allocation and `epoll_ctl` may fail at every call;
`Environment.MEMORY_LASTS` and `Environment.EPOLL_WORKS` name the two assumptions under which they do
not, and their values are left open, so that contracts say both what holds regardless and what failure
may be blamed on.

The two ends meet in `Server.Server.WhatClientsSee` and `Server.Server.InputIsServed`: a server object
carries the whole run of the machine it stands at the end of, and that no step of it blames the allocator
or epoll without cause, so that the theorems about runs speak about the table, queues and interest masks
on the heap.

## What the code does and its comments do not say

- `parse_int64` accepts magnitudes up to 2^63 - 9; the comment at src/command.c:73-77 gives the full
  `int64_t` range. Arithmetic can store values beyond what it reads, which then stay stuck
  (`CommandProperties.StoredOutOfRangeIsStuck`).
- NEED_MORE does not mean "valid prefix of a frame" (src/resp.h:69). `Completable.CompletableIff` says
  exactly which undecided buffers can be completed.
- An append or reserve that fails may already have compacted the queue, against "without modifying the
  buffer" (src/bytebuf.h:28-29). It leaves the fields alone exactly when nothing of the head was consumed
  (`ByteBuffer.ByteBuf.EnsureTailCap`); `ByteBuffer.FailedReserveMoves` is a queue where it does not. The
  live bytes are kept in any case.
- "ERR out of memory" after a read (src/networking.c:335) is also what a client sees when fewer than 4096
  bytes of the 16 MiB limit are left; with no allocation refused, exactly then (`EventLoop.NoRoomIff`).
- The unknown-command reply copies name bytes raw, so a name with CR LF in it splits the reply line
  (`CommandProperties.ReplyFramableIff`, with an input in `CommandProperties.EchoBreaksFraming`); inline
  commands cannot cause it.
- A handler may have changed the store when its reply no longer fits the queue: the connection is closed,
  the request stays in the log.

## Model

| member | source | states |
|---|---|---|
| `ByteBuffer.CapacityFor` | src/bytebuf.c:60-74 | The doubling loop ends without exceeding the cap; it succeeds exactly when `len + need <= BYTEBUF_MAX`, and then returns the least capacity of the ladder 256, 512, ..., 2^24 that fits (half of it would be too small), at least twice the old one |
| `ByteBuffer.CapacityIsPowerOfTwo` | src/bytebuf.c:60-74 | Every capacity an allocated queue can have is 256 * 2^k with k at most 16 |
| `ByteBuffer.Realloc` | src/bytebuf.c:74-79 | The only place a queue asks for memory: the bytes in use survive the move, and a refusal happens only when memory does not last |
| `ByteBuffer.ByteBuf.CompactInPlace` | src/bytebuf.c:30-39 | Moving the live bytes to the start changes neither the contents nor their order, leaves no consumed head, and reports how many bytes were moved: all live ones if the head was not empty, else none |
| `ByteBuffer.ByteBuf.EnsureTailCap` | src/bytebuf.c:45-80 | Succeeds exactly when no allocation is refused and live + need stays within the cap; memory is asked for only when the old capacity cannot hold the bytes; a failing call keeps the allocation and the contents, has moved the live bytes to the start, and so leaves the fields alone if and only if nothing of the head was consumed |
| `ByteBuffer.ByteBuf.GrowTo` | src/bytebuf.c:74-79 | Growth keeps the contents; with the class invariant, all bytes ever copied by growth stay below the final capacity |
| `ByteBuffer.ByteBuf.Append` | src/bytebuf.c:115-126 | All of the bytes are queued after the old contents, or none is; on failure the fields are unchanged if and only if nothing of the head was consumed |
| `ByteBuffer.ByteBuf.Reserve` | src/bytebuf.c:161-167 | Contents are kept whether or not room is found; on success the tail has the room asked for, on failure the fields are unchanged if and only if nothing of the head was consumed |
| `ByteBuffer.FailedReserveMoves` | src/bytebuf.c:53-65 | A reachable queue, two bytes in and one consumed, whose failing reserve moves `off` from 1 to 0: "without modifying the buffer" (src/bytebuf.h:28-29) does not hold |
| `ByteBuffer.ByteBuf.Advance` | src/bytebuf.c:169-177 | The bytes deposited in the tail become live, behind the others, clamped to the capacity |
| `ByteBuffer.ByteBuf.Consume` | src/bytebuf.c:196-215 | Exactly the oldest n bytes go, clamped to what is live; the head left unused stays within 4096 bytes or half the capacity, and a drained queue starts over; the running total of moved bytes grows by exactly the bytes compaction moved, and with the class invariant never exceeds the bytes consumed |
| `ByteBuffer.ByteBuf.Reset` | src/bytebuf.c:103-109 | The queue is empty and keeps its allocation |
| `ByteBuffer.ByteBuf.Free` | src/bytebuf.c:94-101 | The queue is empty, holds no allocation and can be used again |
| `Hash.HashKey` | src/hashtable.c:32-49 | The hashing loop computes the fold of `h * 33 ^ byte` at 64 bits, and its bucket |
| `Hash.HashBytes` | src/hashtable.c:32-49 | The hash of the empty key is 5381; one more byte multiplies the state by 33, wrapping at 64 bits, and flips the bits of the byte in it |
| `Hash.Bits8Value` | src/hashtable.c:36-39 | The eight bits mixed into the state are those of the byte hashed |
| `Hash.BucketNeedsTenBits` | src/hashtable.c:46-49 | Taking `% 1024` of the 64-bit hash equals running the same fold on ten bits of state, masked after each byte |
| `Hash.Step10Injective` | src/hashtable.c:32-42 | On ten bits each round is injective in the state and in the byte, because 33 is invertible modulo 1024 |
| `Hash.OneByteApartNeverCollide` | src/hashtable.c:32-49 | Two keys of one length that differ in exactly one byte never share a bucket |
| `Table.SetRefines` | src/hashtable.c:130-185 | Storing in a well-formed table is map update and keeps every entry in the bucket of its hash with no key twice |
| `Table.DelRefines` | src/hashtable.c:187-206 | Deleting is map removal and keeps the table well formed |
| `Table.LookupIsMap` | src/hashtable.c:212-230 | Searching the one chain of a key's hash finds the key exactly when the map has it, with the map's value |
| `Table.CountMoves` | src/hashtable.c:178-202 | The entry count moves by one exactly when a stored key is new, or a deleted key was there |
| `Table.EntriesDistinct` | src/hashtable.c:236-253 | Walking bucket after bucket meets no key twice |
| `Table.NewestFirst` | src/hashtable.c:149-184 | In the order of a scan a new key stands before the others of its bucket and nothing else moves; a key stored again keeps its place |
| `Table.DelKeepsOrder` | src/hashtable.c:187-206 | A deletion takes one entry out of the scan, one with the key, and the others keep their order |
| `Table.TableIsMap` | src/hashtable.h:24-70 | After any history of stores (granted or refused), deletions and wipes the table is the finite map of the same history: lookups, count, scan order without repetition, bucket of every entry |
| `HashTable.HashTable.Search` | src/hashtable.c:137-147 | Walking a chain stops at the first node with the key, holding the node before it, or at the end when no node has it |
| `HashTable.WalkTo` | src/hashtable.c:137-147 | The walk itself, on any linked chain |
| `HashTable.HashTable.Get` | src/hashtable.c:212-230 | A hit returns the stored value, a miss says so, nothing changes |
| `HashTable.HashTable.Set` | src/hashtable.c:130-185 | Overwrite in place or a new node in front; a refused allocation leaves the table as it was, and it never fails while memory lasts |
| `HashTable.HashTable.Del` | src/hashtable.c:187-206 | Routing one link past the node removes exactly the first entry with the key and reports whether there was one |
| `HashTable.HashTable.Unlink` | src/hashtable.c:191-200 | Pointer-to-pointer removal, bucket head or inner link alike, leaves every other node of every chain in place |
| `HashTable.HashTable.Destroy` | src/hashtable.c:91-105 | After walking and releasing every chain the table is the empty one and usable |
| `HashTable.HashTable.Init` | src/hashtable.c:68-76 | Whatever the structure held, it becomes the valid empty table |
| `HashTable.HashTable.NodeHome` | src/hashtable.c:46-49 | Every node on the heap sits in the chain of its key's hash |
| `HashTable.HashTable.ChainsDisjoint` | src/hashtable.h:53-57 | No node occurs twice, in one chain or in two: chains are acyclic and disjoint |
| `Decimal.ParseInt64` | src/command.c:78-109 | Accepts exactly an optional minus and digits of magnitude at most 2^63 - 9 and returns the number they spell; no step leaves `int64_t` |
| `FrameBytes.AcceptsBytes` | src/command.c:78-109 | What is accepted, in bytes: perhaps a 45, then at least one byte from 48 to 57, the decimal number they spell at most 9223372036854775799; that number, negated after a 45, is what is read |
| `Decimal.ReaderInvertsPrinter` | src/command.c:73-109 | What the printer prints for n is read back exactly when the magnitude of n is at most 2^63 - 9, which is the range of the code and not the one in its comment |
| `Decimal.FormatRoundTrip` | src/command.c:312-317 | Printing an integer and reading the text gives the integer back |
| `Decimal.CanonicalIffPrinted` | src/command.c:312-317 | Reading a text and printing the number gives the text back exactly when it has no leading zero and is not minus zero |
| `Glob.GlobMatch` | src/command.c:123-202 | Returns true exactly for the strings that can be cut into one piece per token of the pattern, each piece denoted by its token (star, any byte, class, negated class, escaped or plain literal); terminates through loop and recursion |
| `GlobBytes.StarLaw` | src/command.c:129-145 | A 42 stands for any run of bytes |
| `GlobBytes.AnyLaw` | src/command.c:147-154 | A 63 stands for any one byte |
| `GlobBytes.LiteralLaw` | src/command.c:190-199 | Any byte but 42, 63, 91 and 92 stands for itself; so does a 92 at the end of the pattern |
| `GlobBytes.EscapeLaw` | src/command.c:190-199 | After a 92 any byte stands for itself |
| `GlobBytes.ClassLaw` | src/command.c:156-188 | Between 91 and 93, when the members do not start with a plain 94 or 33, exactly the members match, each written as itself or after a 92; the dash is a member, an empty class matches nothing |
| `GlobBytes.NegatedLaw` | src/command.c:159-163 | With a 94 or a 33 in front exactly the bytes that are no members match |
| `GlobBytes.OpenLaw` | src/command.c:165-178 | A 91 that no 93 closes, one after a 92 not counting, matches nothing |
| `GlobBytes.PlainClasses` | src/command.c:156-188 | For members ms without 92 and 93, `[ms]` matches exactly the one-byte strings in ms unless ms starts with `^` or `!`, and `[^ms]` and `[!ms]` exactly those not in ms |
| `Glob.MatchIffInLanguage` | src/command.c:113-202 | Deciding one token at a time is the same as the declarative language |
| `Glob.StarAbsorbs` | src/command.c:131-136 | A run of stars says no more than one star |
| `Glob.UnclosedMatchesNothing` | src/command.c:149-172 | A pattern with an unterminated class matches nothing, whatever comes before it |
| `Glob.PatternsCompose` | src/command.c:126-201 | For a pattern p without dangling backslash or open class, p followed by q matches s exactly when s splits into a part matching p and a part matching q |
| `Glob.ComposesIffClosed` | src/command.c:126-201 | Appending patterns appends their tokens for every continuation exactly when the first has no dangling backslash or open class |
| `Glob.QuoteMatchesOnlyItself` | src/command.c:180-190 | A text with every byte backslash-escaped is a pattern that matches that text and nothing else |
| `Resp.ParseStable` | src/resp.c:279-293 | Once the parser says OK or PROTOCOL_ERR, it says the same, with the same arguments and byte count, on every extension of the buffer |
| `Resp.ParseMinimal` | src/resp.c:279-293 | On OK, 0 < bytes_consumed <= len, the consumed prefix alone parses identically, the argument list is within the limits, and every shorter prefix is NEED_MORE |
| `Resp.ParseIntMeaning` | src/resp.c:32-95 | A header is accepted exactly when it is an optional minus and digits of magnitude at most 2^63 - 9, then CRLF; leading zeros and minus zero included |
| `FrameBytes.HeaderOpenIff` | src/resp.c:45-95 | A header is waited for exactly while it is perhaps a 45, digits within 9223372036854775799 and perhaps a last 13; anything else undecided is refused at once |
| `FrameBytes.BulkVerdict` | src/resp.c:102-151 | A bulk string is waited for, refused or read exactly as its bytes say: empty; no 36 in front; header open, or done with a length outside 0 to 536870912; body and end not there yet; end other than 13 10 |
| `FrameBytes.MultiBulkVerdict` | src/resp.c:158-199 | After a 42 the exact condition on the bytes for NEED_MORE, for PROTOCOL_ERR and for the argument list with its byte count: counts from 1 to 32, then the first argument that is open or refused decides |
| `Resp.RequestRoundTrip` | src/resp.c:102-199 | Parsing the multi-bulk encoding of 1 to 32 arguments of at most 512 MiB each returns them and consumes exactly the encoding, whatever follows |
| `WireBytes.RequestBytes` | src/resp.c:102-199 | The encoding it speaks of, in bytes: 42, the count, 13 10, then for each argument 36, its length, 13 10, its bytes, 13 10 |
| `Resp.ReencodeAccepted` | src/resp.c:206-293 | Any accepted frame, inline included, re-encoded as multi-bulk parses to the same arguments |
| `Words.WordsAreTheReading` | src/resp.c:238-264 | The inline tokeniser's words are the only way to read the line as words separated by non-empty runs of blanks |
| `FrameBytes.HasWordsIff` | src/resp.c:238-264 | The tokeniser returns the words separated by runs of 32 and 9, with such runs allowed at both ends, and no others |
| `FrameBytes.LineVerdict` | src/resp.c:206-273 | Any other buffer is waited for exactly while it is shorter than 8192 bytes and holds no 10, and accepted exactly when the first 10 is within 8192 bytes and the line before it, less a 13 at its end, is 1 to 32 words; otherwise it is refused |
| `FrameBytes.LineRead` | src/resp.c:231-273 | A line of 1 to 32 words ended by 13 10, or by 10 alone, parses to exactly these words whatever follows, and exactly the line and its end are consumed |
| `Completable.CompletableIff` | src/resp.h:66-76 | An undecided buffer can still become an accepted frame exactly when a test on its bytes holds: the header can still reach a number in range (counts 1 to 32, lengths 0 to 512 MiB), a body one byte short of its end has its carriage return in place, an inline line has room and not too many words |
| `Completable.WaitsOnMinus` | src/resp.h:69-71 | `*-` is answered NEED_MORE and no continuation completes it: NEED_MORE does not promise a valid prefix |
| `Completable.WaitsOnTooMany` | src/resp.h:69-71 | So is `*99` |
| `Stream.SplitExtends` | src/networking.c:358-377 | Parsing restarted from the leftover when more bytes arrive yields what parsing the whole stream would |
| `Stream.SegmentationIndependence` | src/networking.c:325-377 | For every way of cutting a stream into chunks the requests, the leftover bytes and the verdict are those of the stream parsed in one go |
| `Stream.PipelineRoundTrip` | src/networking.c:358-377 | Concatenated encodings of any list of argument lists are parsed and consumed to exactly that list, then NEED_MORE |
| `RespParser.ParseIntUntilCrlf` | src/resp.c:45-95 | The loop computes the specified three-way result, whose bytes are in `FrameBytes.HeaderOpenIff` and `Resp.ParseIntMeaning`, with an `int64_t` accumulator that never overflows |
| `RespParser.ParseBulkAt` | src/resp.c:102-151 | At any offset, the specified result for a bulk string, the slice viewing exactly its body |
| `RespParser.ParseArguments` | src/resp.c:176-184 | The loop over the announced count stages one slice per argument and stops at the first that is missing or malformed |
| `RespParser.ParseMultiBulkInto` | src/resp.c:158-199 | The specified result for a whole frame; the caller's record is written only when the frame is complete |
| `RespParser.Tokenise` | src/resp.c:236-264 | The two inner loops find the words of the line, at most 32, and report when there are more |
| `RespParser.ParseInlineInto` | src/resp.c:206-273 | The specified result for a line, newline scan bounded by 8192, a carriage return before the newline left out (the bytes are in `FrameBytes.LineVerdict`); the caller's record is untouched unless it is accepted |
| `RespParser.FindNewline` | src/resp.c:212-221 | The index of the first newline within the bound, or the bound |
| `RespParser.ParseRequest` | src/resp.c:279-293 | Agrees with the specified verdict on every buffer; on OK the record's slices view exactly the arguments and its byte count is the frame's, otherwise it is untouched |
| `Reply.DecodeText` | src/resp.c:299-311 | A status or error line decodes to itself whatever follows exactly when its text holds no CRLF pair |
| `Reply.DecodeRoundTrip` | src/resp.c:299-337 | A framable reply decodes to itself and nothing more, whatever follows, binary bulks and nested arrays included |
| `Reply.StreamRoundTrip` | src/resp.c:299-337 | A stream of framable replies decodes to exactly those replies, one for one |
| `WireBytes.ReplyBytes` | src/resp.c:299-337 | Each kind of reply in bytes: tags 43, 45, 58, 36, 42, nil as 36 45 49, every line ended by 13 10 |
| `WireBytes.PrintedBytes` | src/resp.c:313-337 | Numbers are printed as bytes 48 to 57, most significant first, without leading zeros, after a 45 when negative |
| `WireBytes.OkBytes` | src/command.c:230-238 | The bytes of the status after a store |
| `WireBytes.OomBytes` | src/command.c:230-238 | The bytes of the answer to a refused allocation |
| `WireBytes.NotIntegerBytes` | src/command.c:286-338 | The bytes of the answer to an unreadable number |
| `WireBytes.WouldOverflowBytes` | src/command.c:286-318 | The bytes of the answer to a sum outside `int64_t` |
| `WireBytes.TooLongBytes` | src/command.c:375-419 | The bytes of the answer to a concatenation that is too long |
| `WireBytes.EmptyCommandBytes` | src/command.c:609-613 | The bytes of the answer to no arguments at all |
| `WireBytes.WrongArityBytes` | src/command.c:624-632 | The bytes of the arity error around the command's name |
| `WireBytes.UnknownBytes` | src/command.c:635-645 | The unknown-command error holds, between quotes, the name's first 64 bytes up to its first zero byte |
| `WireBytes.ProtocolLineBytes` | src/networking.c:366-370 | The bytes of the line for a malformed frame |
| `WireBytes.TooLargeLineBytes` | src/networking.c:327-331 | The bytes of the line for a full input queue |
| `WireBytes.NoRoomLineBytes` | src/networking.c:333-338 | The bytes of the line when a chunk finds no room |
| `ReplyWriter.ReplySimple` | src/resp.c:299-304 | Appends the encoding of a status; on failure a prefix of it; fails exactly when an allocation is refused or the cap is hit |
| `ReplyWriter.ReplyError` | src/resp.c:306-311 | The same for an error line |
| `ReplyWriter.ReplyInt` | src/resp.c:313-316 | The same for an integer |
| `ReplyWriter.ReplyBulk` | src/resp.c:318-326 | The same for a bulk string of any bytes |
| `ReplyWriter.ReplyNil` | src/resp.c:328-332 | The same for the nil bulk |
| `ReplyWriter.ReplyArrayHeader` | src/resp.c:334-337 | The same for an array header |
| `KeysScan.KeysCtx.Callback` | src/command.c:435-453 | In the first pass a matching key is counted, in the second written as a bulk; only a failed write stops the scan |
| `KeysScan.Scan` | src/hashtable.c:236-253 | The callback is called with the keys of the entries in bucket and chain order, each entry once: all of them, or those up to and including the one that stopped the scan, and the count returned is the number of calls; what is written is the matching keys, or a prefix when stopped |
| `Commands.SliceEqCi` | src/command.c:45-62 | True exactly when the name has the length of the upper-case one and each byte is the capital letter there or the letter 32 above it |
| `NameBytes.NameRuns` | src/command.c:577-618 | A name is dispatched to a command exactly when it is the command's letters, given as numbers, each in either case |
| `NameBytes.NameUnknown` | src/command.c:577-618 | It is unknown exactly when it is no command's letters |
| `NameBytes.CaseIgnored` | src/command.c:45-62 | Making a capital letter of any name small changes nothing in its dispatch |
| `NameBytes.OtherByteMisses` | src/command.c:45-62 | Any byte in place of a letter, other than its two cases, makes the name miss the command |
| `NameBytes.RowTakes` | src/command.c:577-633 | The argument counts each of the 17 commands accepts, as numbers |
| `NameBytes.WhatRuns` | src/command.c:607-633 | A request that names a command in any case runs its handler when the count is one it takes, and otherwise is answered the arity error with the command's name and changes nothing |
| `NameBytes.NothingRuns` | src/command.c:635-646 | A request that names no command is answered the unknown-command error and changes nothing |
| `Commands.CmdPing` | src/command.c:210-216 | PONG, or the argument as a bulk |
| `Commands.CmdGet` | src/command.c:219-227 | The stored value or nil; the table is untouched |
| `Commands.CmdSet` | src/command.c:230-238 | Stores and answers OK, or answers out of memory and changes nothing |
| `Commands.CmdDel` | src/command.c:241-250 | Deletes each named key, counting those present when reached |
| `Commands.CmdExists` | src/command.c:253-262 | Counts the present keys with multiplicity |
| `Commands.CmdCommand` | src/command.c:270-274 | The empty array |
| `Commands.IncrbyOp` | src/command.c:286-318 | Reads, adds and stores, or answers not-an-integer, overflow or out-of-memory and changes nothing; the checks before the addition keep it within `int64_t` |
| `Commands.CmdIncr` | src/command.c:320-323 | Adds one |
| `Commands.CmdDecr` | src/command.c:325-328 | Subtracts one |
| `Commands.CmdIncrby` | src/command.c:330-338 | Adds the number an argument spells, or answers not-an-integer |
| `Commands.CmdDecrby` | src/command.c:340-353 | Subtracts it; the reader's range keeps the negation within `int64_t` |
| `Commands.CmdStrlen` | src/command.c:360-368 | The stored value's length, or zero |
| `Commands.CmdAppend` | src/command.c:375-419 | Stores the concatenation and answers its length; a refused scratch allocation, a refused store or a too-long sum changes nothing |
| `Commands.CmdKeys` | src/command.c:460-482 | One array whose announced length is the number of bulks emitted: the counting and the emitting scan agree |
| `Commands.CmdDbsize` | src/command.c:485-489 | The number of entries |
| `Commands.CmdFlushdb` | src/command.c:496-502 | The empty table |
| `Commands.CmdSetnx` | src/command.c:512-523 | Stores only a missing key |
| `Commands.CmdGetset` | src/command.c:530-564 | Answers the old value and stores the new one; a refused copy or store changes nothing |
| `Commands.RunHandler` | src/command.c:577-601 | Each row of the dispatch table calls the handler of its command |
| `Commands.Execute` | src/command.c:607-646 | On the heap: table and reply of one request are those of the command specification, exactly one reply is queued, and failure means only that the reply did not fit the queue or an allocation was refused |
| `CommandMeaning.DelAllMeaning` | src/command.c:241-250 | DEL removes the set of named keys and counts the distinct ones that were present |
| `CommandMeaning.CountMeaning` | src/command.c:253-262 | EXISTS counts positions of the argument list that name a present key |
| `CommandMeaning.KeysMeaning` | src/command.c:435-482 | The KEYS array lists, without repetition, exactly the map's keys in the pattern's language |
| `Determinacy.DispatchIsUnique` | src/command.c:615-618 | A name is dispatched to a row exactly when it equals its name up to case, so to one row only; it is unknown exactly when it equals none |
| `CommandMeaning.ExecRefines` | src/command.c:607-646 | For every request and every table that stands for a map, dispatch over the chained table does to the map, and answers, what the reference semantics of the 17 commands and of the dispatch errors says, and keeps the table well formed |
| `Determinacy.MeansDetermines` | src/command.c:607-646 | The reference semantics fixes the next map of every request, and its reply up to the order of a KEYS list |
| `CommandProperties.ErrorsChangeNothing` | src/command.c:218-646 | A request answered with an error, memory failure included, leaves the table exactly as it was |
| `CommandProperties.UnnamedKeysKept` | src/command.c:218-646 | Every key keeps its value except the first argument of a writing command that passes dispatch, the arguments of DEL, and under FLUSHDB; keys that occur as command name or as a value are kept too |
| `CommandProperties.CounterRun` | src/command.c:286-353 | Any run of requests in which INCR, DECR, INCRBY and DECRBY count on one key and the others do not touch it, any of them refused memory, whose sums fit and stay readable: the counting requests are answered by the exact running sums, or an error when refused; the key holds the canonical decimal of the sum of the granted ones; keys the others do not touch are kept |
| `CommandProperties.AddsIsIncrBy` | src/command.c:320-353 | Dispatching a counting request in any letter case is the shared arithmetic core with its delta |
| `CommandProperties.ExecKeeps` | src/command.c:218-646 | On the chained table, a request that may not write a key leaves its lookup as it was |
| `CommandProperties.StepSucceedsIff` | src/command.c:286-318 | One arithmetic step succeeds exactly when memory is granted, the key is missing or holds a readable number, and the sum fits `int64_t`; otherwise it answers an error and changes nothing |
| `CommandProperties.StoredOutOfRangeIsStuck` | src/command.c:98-104 | A value pushed past 2^63 - 9 in magnitude is stored, and every later arithmetic on it fails and leaves it as it is |
| `CommandProperties.ReplyFramableIff` | src/command.c:635-645 | A reply is decodable exactly when it does not echo, within the first 64 bytes and before the first NUL of an unknown name, a CRLF pair |
| `CommandProperties.EchoBreaksFraming` | src/command.c:635-645 | The accepted request for a command named CR LF has a reply that breaks framing |
| `CommandProperties.InlineNamesAreSafe` | src/command.c:635-645 | Names that came in as inline commands never break reply framing |
| `EventLoop.StepKeeps` | src/networking.c:307-435 | Every step of the machine (accept, readable with any kernel answers, writable with any partial writes, close) keeps the invariant: the table is the replay of the log; every client's bytes are its requests in the log and its leftover; its written and queued bytes are its replies and the error lines of one event, a protocol error among them exactly when a malformed frame is left over; no queue exceeds 16 MiB; and its interest mask says what it waits for |
| `EventLoop.DispatchesMeaning` | src/networking.c:356-377 | One dispatch loop takes successive frames from the head of the input and executes them in order |
| `EventLoop.ReadKeepsBook` | src/networking.c:307-403 | A readable event, whatever ended its read and dispatch loops, keeps the reading client's books balanced |
| `EventLoop.NoRoomIff` | src/networking.c:326-337 | With no allocation refused, "ERR out of memory" is queued exactly when 16773121 to 16777215 bytes are buffered: short of the 16 MiB limit by less than 4096 |
| `Runs.RunsKeepInvariant` | src/networking.c:504-554 | Every state of every run, any number of clients interleaved in any way, satisfies the invariant |
| `Runs.LogRefines` | src/command.c:607-646 | Replaying a log of requests on the chained table is replaying it on plain maps |
| `Runs.LogDetermines` | src/command.c:607-646 | A log leads to one map only: the fold of the reference semantics is a function |
| `Runs.SerialConsistency` | src/networking.c:519-553 | In every state of every run the store is the fold of the reference semantics over one global log, and each client's part of the log, alive or gone, is a prefix of the frames in the bytes it sent |
| `Runs.ReplyConservation` | src/networking.c:366-435 | For every live connection in every state of every run, bytes written followed by bytes queued are its replies in order, then the error lines of one event, in full or cut short, with a protocol error among them exactly when a malformed frame is left over |
| `Runs.InterestMask` | src/networking.c:189-205 | Reading is armed exactly when not winding down, writing exactly when something is queued, winding down implies something queued, so no connection waits for nothing |
| `Runs.QueuesWithinCap` | src/bytebuf.h:46-49 | In every state of every run no queue of a live connection holds more than 16 MiB |
| `Departures.EveryRemoval` | src/networking.c:276-435 | Every removal in every run has a reason: everything written, peer gone, hang-up, reply that did not fit or was refused memory, error line refused memory, or epoll; while memory lasts and epoll works only the first four are left, and a reply is lost only by overflowing its queue |
| `Departures.GoneForGood` | src/networking.c:276-301 | A removed connection never comes back and its record never changes |
| `Departures.WrittenIsOwed` | src/networking.c:366-435 | However a connection ended, its socket was given a prefix of its replies and the error lines of one event |
| `Departures.DrainedBeforeClose` | src/networking.c:405-435 | A connection that winds down and is closed by a flushed writable event has had every reply and error line written, and that stays so |
| `Limits.EventCleanIff` | src/networking.c:325-383 | An event that is refused no allocation drains the socket and queues every reply and error line exactly when the peer is there, what is buffered leaves room for one more chunk, and what is queued leaves room for the event's replies and protocol-error line |
| `Limits.CleanIffRoomy` | src/networking.c:325-383 | In every run a client, alive or gone, for which no allocation was refused has been cut short by nothing exactly when every event that read it had that room |
| `Limits.TotalsSuffice` | src/networking.c:325-383 | Room at every event follows when the client's whole traffic stays short of 16 MiB by a chunk and a line |
| `Limits.NeverOutOfRoom` | src/networking.c:326-338 | In every run a client that never has more than 16773120 bytes buffered, no allocation for it refused, is never told that memory or room has run out |
| `Limits.DispatchedIsParsed` | src/networking.c:325-383 | However its input was cut into reads and events, a client whose every event had room, connected or gone once drained, has had exactly the frames of the input parsed in one go dispatched; it winds down exactly when that parse ends in an error, with one protocol-error line; and what it is given are its replies and that line; its traffic in all is not limited |
| `Limits.RunsAgree` | src/networking.c:325-383 | Two runs that feed the same input with room at every event, in any two cuts into reads and events, dispatch the same requests in the same order and stop alike with the same error line; alone on the server they give the same bytes and leave the same table |
| `Limits.LinesComeFrom` | src/networking.c:366-383 | What follows a client's replies are the error lines of the one event that turned it to winding down, cut short, when nothing was refused, exactly if they overflow its queue; without such an event there are none |
| `Limits.OneReplyPerRequest` | src/command.h:8-13 | Decoding all bytes written and queued for a client gives exactly one reply per dispatched request, the k-th being the reply to the k-th request, then the error lines of the event that turned it to winding down, and nothing else: given that this event was refused no allocation and its lines fitted the queue, and that no echoed name holds a CRLF pair |
| `Connection.ArmEvents` | src/networking.c:189-205 | The mask becomes the wanted one or, when epoll fails, stays; an unchanged mask costs no call and cannot fail |
| `Connection.ReadLoop` | src/networking.c:325-354 | Takes exactly the chunks the kernel offers up to the answer that ends the loop, behind the bytes already queued, and ends for the reason it reports: the queue is full exactly at 16777216 bytes; with no allocation refused it ends for want of room exactly from 16773121 to 16777215, and with at most 16773120 and a peer that stays it drains the socket |
| `Connection.ReceivedIsAll` | src/networking.c:333-354 | Chunks are received whole and in order |
| `Connection.ReadsExactly` | src/networking.c:339-354 | A loop that ends with a drained socket or a lost peer has taken exactly what stands before the first EAGAIN, end of file or error, interruptions passed over, and tells the two apart |
| `Connection.ServeOne` | src/networking.c:371-376 | Executes one parsed request and then consumes exactly its bytes |
| `Connection.DispatchLoop` | src/networking.c:356-377 | Dispatches every complete frame in order, stopping at a missing byte, a malformed frame or a reply that does not fit |
| `Connection.QueueErrors` | src/networking.c:366-383 | Error lines come after the replies, the protocol error before the read error; what does not fit is dropped |
| `Connection.Finish` | src/networking.c:379-403 | Wind down on any error, close when there is nothing left to send, otherwise re-arm |
| `Connection.WindDown` | src/networking.c:307-316 | While winding down nothing is read: only writing is armed |
| `Connection.HandleRead` | src/networking.c:307-403 | One readable event on the heap is one read step of the machine; it blames the allocator only for a refusal and gives the connection up only when nothing is left to wait for or epoll fails |
| `Connection.WriteLoop` | src/networking.c:405-427 | The bytes handed to the socket are exactly the head of the queue, as many as the kernel took over all its partial writes; the rest stays queued |
| `Connection.WritesExactly` | src/networking.c:408-427 | It hands over what the kernel takes before it first refuses, interruptions passed over, never more than is queued, and tells a full socket from a lost peer |
| `Connection.TakenBySum` | src/networking.c:426 | What was taken is the sum of the positive answers |
| `Connection.HandleWrite` | src/networking.c:405-435 | One writable event is one write step of the machine; a drained connection that is winding down closes, another stops asking for writability |
| `Server.ServeRead` | src/networking.c:541-546 | Serving one connection leaves every other connection's buffers, flags and identity as they were, and all objects disjoint |
| `Server.ServeWrite` | src/networking.c:547-552 | The same for a writable event |
| `Server.DropOne` | src/networking.c:287-294 | Unlinking one connection leaves the others well shaped and apart from the one released |
| `Server.Adopted` | src/networking.c:243-263 | A fresh connection joins the list waiting for input, sharing nothing with the others |
| `Server.Server.Find` | src/networking.c:288-291 | Walking the list stops at the connection |
| `Server.Server.CloseConn` | src/networking.c:276-301 | Exactly this connection leaves the list, order kept, and its queues are released |
| `Server.Server.OnReadable` | src/networking.c:541-546 | A readable event is a read step of the machine; a connection that does not survive is closed |
| `Server.Server.OnWritable` | src/networking.c:547-552 | A writable event is a write step; a connection that does not survive is closed |
| `Server.Server.OnHangup` | src/networking.c:536-540 | An error or hang-up event removes the connection and nothing else |
| `Server.Server.AcceptOne` | src/networking.c:237-267 | A new connection heads the list, armed for reading; when epoll refuses it the list is as before |
| `Server.Server.AcceptClients` | src/networking.c:211-274 | Exactly the sockets offered before the listener is drained or fails, non-blocking, with memory and registered, become connections; those already there stay |
| `Server.AdmittedBefore` | src/networking.c:211-274 | Exactly the sockets offered before the listener first has nobody waiting or fails, made non-blocking, given memory and registered, are counted as admitted, interruptions passed over |
| `Server.Server.OnClient` | src/networking.c:533-552 | A client's event is a close, or a read then a write as its bits say; a connection closed by the read is not written to |
| `Server.Server.RunBatch` | src/networking.c:519-553 | The run grows by the steps of each entry in order, every entry finding its connection still listed; a failing listener ends the batch and stops the server |
| `Server.Server.Teardown` | src/networking.c:556-569 | On the way out every connection is closed and the store is as it was |
| `Server.Server.WhatClientsSee` | src/networking.c:504-578 | In every state a server on the heap can reach its table is the serial replay of the log on maps, each connection's requests are a prefix of its frames, its written and queued bytes are its replies once and in order and then the error lines of one event, and its mask is right |
| `Server.Server.InputIsServed` | src/networking.c:325-383 | While memory lasts, a connection on the heap that has received an input with room at every event has had exactly its frames dispatched, winds down exactly on a protocol error, and its written and queued bytes are the replies and that line |
| `Server.WhyItLeft` | src/networking.c:504-554 | In every run a server on the heap records, each removed connection has its reason; with lasting memory and working epoll it is never a refusal |

## Left out

- Socket setup, `fcntl`, `bind`, `listen`, signal handlers and logging: input and output plumbing; the
  outer `while (!g_shutdown)` loop is `Server.Server.RunBatch` called once per `epoll_wait`.
- After end of file, a socket error or a hang-up only the removal of the connection is modelled; frames
  and replies still buffered are dropped, as in the code, and the log keeps what was dispatched.
- `bytebuf_appendf` with general formats: only the formats in use are modelled, as decimal printing plus
  append; each fits its 128-byte fast path.
- `free` and leak freedom: Dafny has no manual release. Ownership is kept as disjointness of the queues,
  the connections and the store.
- The list of connections: `g_conns` is a sequence searched from its head, not linked nodes; the order of
  its elements and the removal of one are as in the code.
- Identity of sockets: a connection carries a number never used before in place of a descriptor, which the
  kernel reuses after close.
- Request slices: an offset and a length into the input instead of a pointer; they are resolved before the
  queue is touched, which is what keeps the pointers valid in the code.
- Width of sizes: lengths are unbounded naturals. The queue cap of 16 MiB and the frame limits keep every
  sum of the parser and the queue far below the width, and the wrap test in `parse_bulk` never fires; the
  one test that speaks of `SIZE_MAX`, in APPEND, is kept.
- CommandMeaning.ExecRefines: the order in which KEYS lists keys is fixed by the chains in `CommandSpec`
  and left open on the map.
- Limits.RunsAgree: the same reply bytes are claimed for a client alone on the server, since requests of
  other clients may change what its own ones answer.
- Limits.DispatchedIsParsed: a client removed before its input was through, for one of the reasons
  `Departures.EveryRemoval` lists, keeps only the prefix statement of `Runs.SerialConsistency`.
- Cost of the compaction inside `ensure_tail_cap`: it may move nearly a full queue after one consumed byte,
  so no bound by bytes consumed holds there.
- Fairness and waiting times: nothing is said about when the kernel reports an event.
- src/main.c: its smoke tests are single cases of the statements above.

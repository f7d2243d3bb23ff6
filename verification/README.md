# CFlare in Dafny

CFlare is a small C web server. This project models the parts of it in which several functions
must agree with each other, and proves what they keep together: over whole runs, under every
interleaving of threads, and for every way in which the network may cut up what a client sends.

The model does what the code does, in the code's own form: objects that are changed in place are
classes, in-place algorithms work on arrays, loops are loops with invariants, and each is proved
against a function or predicate that says what it comes to. Where the code does not do what its
documentation or comments say, the model keeps the code, and a lemma or contract says exactly
when the two agree.

| component | files |
|---|---|
| doubly linked list, its iterator, removal while iterating | `LinkedLists.dfy` |
| hash table on those lists; runs, cost, ownership, threads | `Hashes.dfy`, `Chains.dfy`, `TableSpec.dfy`, `HashTables.dfy`, `TableRuns.dfy`, `TableThreads.dfy` |
| recursive reader/writer lock and its slot allocator | `RwMutex.dfy`, `RwMutexRuns.dfy`, `LockSlots.dfy` |
| push-back socket stream | `Sockets.dfy` |
| request head: meaning, round trip, verdicts, framing | `Heads.dfy`, `HeadRoundTrip.dfy`, `HeadVerdicts.dfy`, `HeadFraming.dfy` |
| request head: the in-place parser | `RequestReader.dfy`, `RequestParser.dfy`, `RequestHead.dfy` |
| request bodies and whole connections | `Contents.dfy`, `Fates.dfy`, `Connections.dfy` |
| responses | `Responses.dfy` |
| query decoding, number parsing | `Urls.dfy`, `Numbers.dfy` |
| hooks, handles | `HookSpec.dfy`, `Hooks.dfy`, `Handles.dfy` |
| byte strings, options | `Text.dfy`, `Options.dfy` |

## How C is modelled

- Bytes are `char` where text is meant and `bv8` in hash keys. `size_t` subtraction and int64-to-size_t
  conversion that can wrap are written out modulo 2^64.
- Allocated value buffers carry an identity, so that who frees what can be counted.
- A list node is born for one list, and a ghost field of the node names it. That lists
  never share nodes is this convention, not a result.
- `pow` and the running sum in `cflare_tointeger` are doubles. They are an arbitrary rounding
  `round` of which only exactness up to 2^53 is known. A hook's priority is a float stored from a
  double: an arbitrary monotone, idempotent rounding `narrow`.
- What `recv` and `send` answer, how much room a handler offers, what memory holds after a buffer
  and which headers are known are arbitrary parameters.
- A failed `assert` or a fatal error is an outcome where the theorem is about it, and a precondition
  where the source leaves it to its callers.

## Where code and documentation differ

- `cflare_linkedlist_insert_before` and `_insert_after` with a null node on a list that is not empty
  overwrite both ends: the old chain is dropped but still counted, and deleting the list then
  follows null (`LinkedList.InsertBefore`, `LinkedList.Delete`, `DroppedChainIsBroken`).
- `cflare_hook_add` makes just that call when no hook has a higher priority, so adding hooks in order
  of priority keeps only the last one (`SecondAddDropsFirst`; exactly when, for one call, for a
  run and for one hook, in `AddKeepsOthers`, `NoneLost` and `RunIsRegistered`). A priority that a
  float rounds up also goes before its equals (`RoundedUpGoesFirst`).
- `cflare_request_content_chunk` says "find the smallest" and takes the larger number. Both are
  modelled: every member from `ContentChunk` to `Serve` takes the `choice` between them. With the
  larger one a call does what it is for if and only if the two numbers are the same or nothing was
  read ahead (`ContentChunk`); once more than the body has been read ahead no room a caller could
  offer helps (`SomeRoomFits`). So a body with anything behind it in the same burst is never read
  right (`BurstWithBodyFails`; `TinyBodyFails` is a one-byte body and a small request behind it),
  and a lone request that comes at once is served if and only if its body fits the handler's first
  call (`LoneBurst`). With the smaller one every body is read right (`SmallerFits`).
- Pipelined requests are meant to be pushed back and read one by one, but a read for a head takes
  all that has come, and 413 is the answer to a full buffer, not to a long head: requests that come
  in one burst of 4096 bytes or more get none of them served, however short each is
  (`LongBurstFails`, `TinyBurstFails`). No head is refused for that when little is sent
  (`ShortNeverFills`), or when it comes in small reads, however much it is (`SmallReadsNeverFill`).
  `AllServed` says exactly when a connection serves everything it is asked for.
- The comment on shrinking has 128 buckets go back to 32; the strict test never lets them
  (`NeverBackBelow128`).
- A second response is refused, but `cflare_response_data` first adds its length line, and on a buffer
  that the first response has filled to the last byte that line is copied past the end
  (`Response.SendData`).
- The range check in `get_info` lets the slot just past the array through (`Slots.Free`).
- The scanner stops at the first blank line anywhere in the head, the parser at the first one after the
  request line. They agree if and only if there is none inside the request line
  (`ParserStopsWithScanner`; `BlankLineInMethod` shows an input).
- The reader/writer lock is documented as recursive. It is safe for every nested use, but a run comes to
  its end if and only if no thread asks for a write inside its own read
  (`RunsCompleteWithoutUpgrades`, `OneUpgradeNeverFinishes`).

## Model

| member | source | states |
|---|---|---|
| LinkedLists.ChainIsAcyclic | src/cflare/linkedlist.c:41-62 | a chain whose `next` and `prev` are inverse and null at both ends visits no node twice |
| LinkedLists.LinkedList.InsertBetween | src/cflare/linkedlist.c:41-62 | links one new node between two others, or becomes an end where there is none |
| LinkedLists.LinkedList.InsertBefore | src/cflare/linkedlist.c:64-70 | the list stays a well-formed chain with the value in its place; null on a list that is not empty leaves only the new node and counts the old ones as lost |
| LinkedLists.LinkedList.InsertAfter | src/cflare/linkedlist.c:72-78 | the same after a node |
| LinkedLists.LinkedList.InsertLast | src/cflare/linkedlist.c:176-179 | the value goes to the end |
| LinkedLists.LinkedList.Remove | src/cflare/linkedlist.c:80-104 | exactly that node leaves the chain, its value is what the deleter gets, and its own `next` survives for an iterator |
| LinkedLists.LinkedList.Delete | src/cflare/linkedlist.c:27-33 | every element is handed over once and in order; it crashes if and only if some node was dropped |
| LinkedLists.DroppedChainIsBroken | src/cflare/linkedlist.c:64-78 | after an insertion at null no reading of `first` and `last` is a chain of `count` nodes |
| LinkedLists.Iterator.Next | src/cflare/linkedlist.c:122-143 | a forward iteration yields the nodes in order, and null at the end |
| LinkedLists.Iterator.Prev | src/cflare/linkedlist.c:145-166 | a backward iteration yields them in reverse |
| LinkedLists.RemoveWhileIterating | src/cflare/linkedlist.c:80-143 | removing any choice of current nodes while iterating visits every node once and in order, and leaves exactly the others |
| LinkedLists.SweepSplits | src/cflare/linkedlist.c:80-143 | each element ends up on exactly one side of such a sweep |
| Hashes.Compute | src/cflare/hash.c:156-222 | the hash is the FNV-1a fold of the key's bytes, with the bytes |
| Hashes.KnownHashes | src/cflare/hash.c:156-222 | the hashes of nothing, "a" and "foobar" are the values published for 32-bit FNV-1a |
| Chains.LookupIsExact | src/cflare/hashtable.c:307-346 | searching the key's own bucket finds it exactly when the map has it, with the map's value |
| Chains.EntriesAreInPlace | src/cflare/hashtable.c:206-232 | every entry stands in the bucket of its hash modulo the number of buckets, and in no other |
| Chains.PutRepresents | src/cflare/hashtable.c:244-298 | overwriting in place or appending in one bucket is a map update: every key once, in bucket hash mod count |
| Chains.DropRepresents | src/cflare/hashtable.c:234-242 | unlinking in one bucket is a map removal |
| Chains.RehashRepresents | src/cflare/hashtable.c:94-152 | redistributing all containers over any number of buckets keeps the map and moves each entry once |
| HashTables.MemoryEquals | src/cflare/hashtable.c:154-169 | true exactly for equal bytes |
| HashTables.Search | src/cflare/hashtable.c:234-246 | stops at the first container with this key, or at the end |
| HashTables.HashTable.Rebuild | src/cflare/hashtable.c:94-152 | the heap of buckets and lists still represents the same entries, in the new number of buckets; only the moves are counted |
| HashTables.HashTable.Set | src/cflare/hashtable.c:171-305 | the whole new state of a set or a removal: resize as the size check says, then the entry, its new buffer, and the buffer given up |
| HashTables.HashTable.Get | src/cflare/hashtable.c:307-346 | answers with the entry of the map, through the heap |
| HashTables.HashTable.Delete | src/cflare/hashtable.c:62-86 | every live buffer is released exactly once |
| HashTables.HashTable.GrowIfFull | src/cflare/hashtable.c:173-189 | grows to four times the size, at least 32, exactly when one more would exceed twice the buckets |
| HashTables.HashTable.ShrinkIfSparse | src/cflare/hashtable.c:190-204 | shrinks to a quarter by the strict tests, with the unsigned `count - 1` |
| TableRuns.RunRefinesMap | src/cflare/hashtable.c:94-346 | over every run of sets, removals, lookups and rebuilds the contents are those of a plain map |
| TableRuns.Replay | src/cflare/hashtable.c:94-346 | every allowed run of the heap table gives the plain map's answers in order |
| TableRuns.ResizingIsAmortised | src/cflare/hashtable.c:173-204 | over any run without direct rebuilds, with n updates, at most 4n/3 containers are moved, there are at most two per bucket, and the size is 0 or 32 times a power of four |
| TableRuns.RunIsDense | src/cflare/hashtable.c:190-204 | over any run without direct rebuilds a table of 512 buckets or more has an entry for every eight of them |
| TableRuns.CallsResize | src/cflare/hashtable.c:171-204 | in such a run a set has four times the buckets, at first 32, exactly when one more would exceed two per bucket; a removal a quarter exactly from 512 buckets on when it would leave less than an eighth; nothing else changes them |
| TableRuns.AnyTableResizes | src/cflare/hashtable.c:171-204 | the same for a table of any size; one without entries never shrinks |
| TableRuns.NeverBackBelow128 | src/cflare/hashtable.c:190-204 | over any run without direct rebuilds a table that has had 128 buckets never gets below again |
| TableRuns.RunFreesWhatLeaves | src/cflare/hashtable.c:234-298 | over any run a buffer has been freed if and only if some call took it from its key |
| TableRuns.RunKeepsBalance | src/cflare/hashtable.c:36-45 | over every run each buffer made is live under one key or freed once, and the deleter gets exactly the freed ones |
| TableRuns.Lifetime | src/cflare/hashtable.c:62-86 | from creation to deletion the deleter gets every buffer ever made, each exactly once |
| TableThreads.CallsAreLinearizable | src/cflare/hashtable.c:173-211 | for any threads and schedule, with the size check unlocked and the rebuild and body separate locked steps, results are those of one map in the order of the bodies |
| TableThreads.ThreadsRunInOrder | src/cflare/hashtable.c:206-211 | each thread's calls take effect in its own order, the bucket index of a body is in range even after a stale rebuild, and only a removal can meet the assertion |
| TableThreads.CallAlone | src/cflare/hashtable.c:171-211 | a call that no other thread's step disturbs is, after at most six steps, exactly the operation, with its answer; or it is a removal without buckets and stops |
| TableThreads.CallsInTurn | src/cflare/hashtable.c:171-211 | when no call is disturbed, the table is that of the plain run of the calls whenever none is under way |
| TableThreads.RunThreads | src/cflare/hashtable.c:171-346 | any schedule of these steps on one table in the heap gives that history, those answers and that table |
| RwMutexRuns.LockIsSafe | src/cflare-windows/mutex.c:160-227 | for any number of threads and any nested use: one writer or many readers, `write_thread` names the writer, the depths are its nesting, primitive locks are released only by holders |
| RwMutex.StepInv | src/cflare-windows/mutex.c:160-227 | every atomic step, including those in the gap between the ownership check and the acquisition, keeps the invariant |
| RwMutexRuns.SomeThreadCanStep | src/cflare-windows/mutex.c:160-227 | without upgrades some unfinished thread can always step |
| RwMutexRuns.InternalHolderRuns | src/cflare-windows/mutex.c:160-227 | no thread waits while it holds `internallock` |
| RwMutexRuns.RunsAreBounded | src/cflare-windows/mutex.c:160-227 | no run has more than seven steps per lock call |
| RwMutexRuns.RunsCompleteWithoutUpgrades | src/cflare-windows/mutex.c:160-227 | a run that goes on until nobody can step has finished every thread if and only if no thread upgrades a read to a write |
| RwMutexRuns.OneUpgradeNeverFinishes | src/cflare-windows/mutex.c:190-207 | one thread alone that upgrades is stuck for ever |
| RwMutexRuns.FinishedLockIsFree | src/cflare-windows/mutex.c:145-227 | when all threads are done every field of the lock is as when it was made |
| LockSlots.Slots.Alloc | src/cflare-windows/mutex.c:88-119 | hands out a slot that was not in use, doubling a full array first, after passing only slots in use; the free count stays right |
| LockSlots.Slots.Realloc | src/cflare-windows/mutex.c:62-86 | more slots, all free, behind unchanged ones |
| LockSlots.Slots.Probe | src/cflare-windows/mutex.c:107-114 | the cyclic search ends, by the distance to a free slot, at the first free one |
| LockSlots.Slots.Free | src/cflare-windows/mutex.c:121-143 | frees exactly the live slots; the check lets through the one position just past the array |
| Numbers.ToInteger | src/cflare/util.c:69-124 | computes sign, base and the rounded sum, or says which character stops it and how |
| Numbers.ComputedIsExact | src/cflare/util.c:109-124 | which texts are numbers never depends on rounding, and below 2^53 in magnitude the result is the exact positional value |
| Numbers.WeightedIsHorner | src/cflare/util.c:109-121 | the sum with the highest power first is Horner's value |
| Numbers.DigitsAreHorner | src/cflare/util.c:109-121 | a text of valid digits, and no other, has a value, and it is Horner's |
| Numbers.DecimalRoundTrip | src/cflare/util.c:69-124 | what a decimal printer writes, with either sign or none, means the number printed |
| Numbers.DecimalIsComputed | src/cflare/util.c:69-124 | below 2^53 the rounded computation gives back exactly the printed number, with either sign |
| Numbers.DigitValues | src/cflare/util.c:57-67 | the sixteen hexadecimal digits, in either case, have their values |
| Numbers.NoOtherDigits | src/cflare/util.c:57-67 | no other character is a hexadecimal digit, and only letters and digits have a value at all |
| Numbers.MarkedIsComputed | src/cflare/util.c:69-124 | numbers printed in base 16, in either case, and in base 2, with their mark and any sign, are read back exactly below 2^53 |
| Numbers.BadDigitDecides | src/cflare/util.c:109-119 | the leftmost character that is no decimal digit makes the text no number, or fails the assertion, by what it is |
| Numbers.EmptyNumbers | src/cflare/util.c:76-107 | no digits, after a sign or a mark or neither, are no number |
| Sockets.Socket.Read | src/cflare-posix/socket.c:407-462 | takes a prefix off pushed-back bytes followed by network bytes, under any answers of recv; on a flowing network it fails only when nothing is left, and does not stop at the pushed-back bytes when there is room for more |
| Sockets.Socket.RequeueRead | src/cflare-posix/socket.c:387-404 | takes a prefix off the pushed-back bytes |
| Sockets.Socket.Requeue | src/cflare-posix/socket.c:686-697 | puts bytes in front of everything still to be read |
| Sockets.Socket.ReadLine | src/cflare-posix/socket.c:539-604 | consumes up to and with the first newline and yields the line without it and without any carriage return |
| Sockets.Socket.Write | src/cflare-posix/socket.c:487-537 | under any partial sends a success emits the bytes once and in order, a failure a prefix, and disconnects |
| Sockets.SqueezeCr | src/cflare-posix/socket.c:590-602 | the in-place loop leaves the line without carriage returns |
| Text.CrIsTakenOut | src/cflare-posix/socket.c:590-602 | that takes out the carriage returns and keeps everything between them, in order and in number |
| HeadRoundTrip.PrintedRequestParses | src/cflare/request.c:193-457 | printing any good request with any line ends, and parsing it in front of any bytes, gives back every field and leaves exactly those bytes |
| HeadRoundTrip.HeadersRead | src/cflare/request.c:286-371 | the header loop notes printed headers one by one and stops after the blank line |
| HeadRoundTrip.NotesAreMeant | src/cflare/request.c:327-369 | what it notes is the known headers in order, and the last host, connection and content length in whatever case they are written |
| HeadVerdicts.HeadIsTaken | src/cflare/request.c:265-457 | a head that ends in a blank line is taken if and only if every line has a colon and does not begin with white space, no more than 32 are known, every known content length is a number, and the version is 1.x with a host for 1.1 and no absolute target for 1.2; the request then says what the lines say, and what follows is left |
| HeadVerdicts.BadLineIsRefused | src/cflare/request.c:286-400 | the first line that is not good decides, whatever follows it: 400 for white space, a missing colon or a bad length, 413 for the 33rd known header |
| HeadVerdicts.UnendedIsRefused | src/cflare/request.c:286-291 | without a blank line no head is taken, and good lines alone get 400 |
| HeadVerdicts.BadStartIsRefused | src/cflare/request.c:191-250 | 400 for a request line without its first space or its line end, 414 without its second |
| HeadVerdicts.TextIsLines | src/cflare/request.c:280-313 | every text is lines and a blank line, or lines and a last part without a newline |
| HeadVerdicts.InPlaceIsTaken | src/cflare/request.c:191-457 | the parser that works in place takes exactly the same heads |
| Text.ContainsIs | src/cflare/request.c:383-386 | a text contains another exactly when it is something, that one, and something |
| HeadFraming.ParserStopsWithScanner | src/cflare/request.c:172-313 | for an accepted head the unread bytes begin right after the scanner's stop if and only if the request line holds no blank line |
| HeadFraming.BlankStops | src/cflare/request.c:172-188 | the newline of the first blank line after lines with a colon is where the scanner stops |
| HeadFraming.StopIsFirstBlank | src/cflare/request.c:170-187 | in any text the scanner stops exactly where the first blank line ends |
| HeadFraming.BlankLineInMethod | src/cflare/request.c:172-207 | an input on which scanner and parser disagree |
| RequestReader.ScanFragment | src/cflare/request.c:170-187 | counting newlines fragment by fragment is counting them over the whole stream, and the first stop is found |
| RequestReader.ReadHead | src/cflare/request.c:150-189 | the buffer holds a prefix of the stream with the stop in it and the socket the rest; on a flowing network it is too long if and only if the reads made until the stop has come in bring exactly the buffer's size, and it has a head if and only if they bring the stop and less |
| RequestParser.CutLine | src/cflare/request.c:293-311 | the first line is taken off and ended in place, over its newline or the carriage return before it, and no other byte changes |
| RequestParser.SplitHeader | src/cflare/request.c:342-352 | name and value are C strings in the buffer with the text meant, though a line ending at its colon gives a length of 2^64 - 1 |
| RequestParser.ReadHeaderLines | src/cflare/request.c:280-402 | the loop ends with what the received bytes mean, every pointer kept stands for its text, and earlier bytes are untouched |
| RequestHead.TakeStart | src/cflare/request.c:191-265 | method, path, query and version are left in place with NULs behind them, or the status that refuses the line is returned |
| RequestHead.Conclude | src/cflare/request.c:404-457 | the version bytes and host decide as the code says |
| RequestHead.ParseInPlace | src/cflare/request.c:191-457 | parsing in place comes to the verdict the bytes call for; an accepted request is pictured by pointers and exactly the trailing bytes are unread |
| Contents.ContentChunk | src/cflare/request.c:569-601 | the next bytes of the body are delivered and the counters stay right if and only if nothing was read ahead and room is left, or exactly as much was read ahead as is asked for; with room left after what was read ahead, a call goes on to the socket |
| Connections.SomeRoomFits | src/cflare/request.c:569-587 | some room makes the first call work if and only if no more than the body has been read ahead |
| Connections.PrintedStops | src/cflare/request.c:172-188 | the scanner stops at the last byte of a printed request, whatever follows |
| Connections.ReadBody | src/cflare/request.c:569-601 | a handler that calls until nothing is unread, with any room for each call, gets exactly the next bytes of the stream up to the length and leaves the stream right after them; it goes astray if and only if the first call cannot do what it is for, and on a flowing network is cut if and only if the stream ends first |
| Connections.ProcessSocket | src/cflare/request.c:138-497 | a good request is handed over whole and the bytes read ahead of the next are pushed back, or lost when the connection is not kept; on a flowing network it is served, or refused as too long, or its body read out of step, exactly as `HandlingOf` says from the reads and the room |
| Connections.Serve | src/main.c:71-75 | however the network splits the stream, and even if it fails, what is delivered is the requests sent, in order and each with its body; if it flows, how many there are and why the connection ends is exactly `FateOf` |
| Fates.AllServed | src/main.c:71-75 | everything up to the request that asks for the end is served if and only if no head's reads fill the buffer and every body fits what was read ahead of it |
| Fates.SmallerFits | src/cflare/request.c:578-579 | with the smaller number, as the comment has it, every body fits, for every split and every room |
| Fates.SmallerServes | src/cflare/request.c:138-601 | so by the comment everything is served if and only if no head's reads fill the buffer |
| Fates.NoBodiesFit | src/cflare/request.c:569-601 | without bodies the choice does not matter |
| Fates.ShortNeverFills | src/cflare/request.c:150-168 | fewer than 4096 bytes in all never fill the buffer |
| Fates.SmallReadsNeverFill | src/cflare/request.c:150-168 | reads of at most q bytes never fill it, however many requests come, when no head is shorter than q and each leaves q bytes to spare |
| Fates.LongBurstFails | src/cflare/request.c:164-168 | requests that come in one burst of at least the buffer's size get none of them served |
| Fates.TinyBurstFails | src/cflare/request.c:164-168 | two hundred good requests of 22 bytes each that show it |
| Fates.BurstWithBodyFails | src/cflare/request.c:577-592 | as written, a body with anything behind it in its burst is read out of step whatever the room; with the smaller number everything is served |
| Fates.TinyBodyFails | src/cflare/request.c:577-592 | a one-byte body and a request behind it that show it |
| Fates.LoneBurst | src/cflare/request.c:577-592 | as written, a request that comes alone and at once is served if and only if it has no body or the first call has room for all of it |
| Responses.Response.AddHeader | src/cflare/request.c:644-674 | a line is appended exactly when it fits with a byte to spare, also after sending; on a buffer that sending has filled the room wraps around and the copy leaves the buffer |
| Responses.Response.SendHeaders | src/cflare/request.c:678-719 | emits status line, gathered lines and blank line once and in order, always with room for the newline; when they fit, the last server, date and connection lines are "cflare", the date and "keep-alive" or "close" as the connection is kept; a second response emits and changes nothing |
| Responses.Response.SendData | src/cflare/request.c:721-731 | the same with the length line before, which when it fits states the body's length, and the body after; a second one emits nothing, and overruns the buffer if and only if the first filled it |
| Responses.GatheredFits | src/cflare/request.c:653-657 | over any run of calls the lines stay below the capacity, and none is dropped if and only if all fit |
| Responses.LinesReadBack | src/cflare/request.c:286-371 | the request parser's header loop reads the gathered lines back and leaves what follows |
| Responses.AllKept | src/cflare/request.c:353-370 | when every name is known that list is every line, in order |
| Responses.ResponseIsFramed | src/cflare/request.c:721-731 | a client reading the headers finds the body, and its length if and only if that line still fitted |
| Responses.ClientIsTold | src/cflare/request.c:690-700 | a client that reads such lines is told that the connection is kept if and only if it is |
| Urls.UnescapeInPlace | src/cflare/url.c:84-125 | in place it leaves what the decoder makes of the bytes that were there; a bad escape leaves the decoded part followed by the old rest |
| Urls.UnitsAreRead | src/cflare/url.c:84-125 | any mixture of plain characters, plus signs and escapes is decoded to the text it encodes |
| Urls.EscapedByte | src/cflare/url.c:92-107 | an escape stands for the byte that its two digits write, in either case |
| Urls.EscapeKinds | src/cflare/url.c:98-112 | what any two characters after a percent sign come to |
| Urls.DecodingStops | src/cflare/url.c:92-112 | a bad escape stops the decoding after the text before it; which escapes are bad, and which fail the assertion |
| Urls.Gather | src/cflare/url.c:23-48 | a piece is copied whole, the buffer growing to at most twice its length, with room for the terminator |
| Urls.ParseQuery | src/cflare/url.c:4-81 | the callback gets the pairs of the input, each decoded, in order, up to an assertion |
| Urls.PairIsFound | src/cflare/url.c:23-77 | a printed pair, with or without an equals sign, is found whole up to an ampersand or the end, whatever follows |
| Urls.QueryRoundTrip | src/cflare/url.c:4-81 | a query in any encoding, its pairs with or without equals signs, gives back exactly its pairs, in order, but for a last one that is written by nothing |
| Urls.Encode | src/cflare/url.c:84-125 | every list of pairs of byte strings has such an encoding |
| HookSpec.AddKeepsOthers | src/cflare/hook.c:108-116 | the other hooks survive an add, and it is as documented, if and only if there are none or one has a higher priority |
| HookSpec.SecondAddDropsFirst | src/cflare/hook.c:108-116 | two adds in order of priority leave one hook |
| HookSpec.RunIsSorted | src/cflare/hook.c:81-143 | over any run the table is sorted by priority and ids are unique |
| HookSpec.MeantRunIsRegistered | thirdparty/documentation/src/50.hook.def:21-29 | as documented, a run would leave exactly the hooks whose last call is an add |
| HookSpec.RunIsRegistered | src/cflare/hook.c:81-143 | the code's table holds a hook if and only if the last call on its id was the add that made it and every later add found a hook of another id with a higher priority |
| HookSpec.RunIsInOrder | src/cflare/hook.c:108-122 | hooks of equal priority are in the order of their adds when no priority is rounded up |
| HookSpec.RoundedUpGoesFirst | src/cflare/hook.c:108-119 | a new hook goes after its equals if and only if there are none or its priority was not rounded up |
| HookSpec.EqualPriorityOvertakes | src/cflare/hook.c:108-119 | two adds that show it |
| HookSpec.NoneLost | src/cflare/hook.c:108-116 | a run loses no hook if and only if at each of its adds no other id is registered by the calls before it, or one with a higher priority is |
| Hooks.RemoveId | src/cflare/hook.c:125-143 | exactly the hooks with this id are taken out while iterating |
| Hooks.InsertHook | src/cflare/hook.c:108-119 | inserts before the first higher priority; with none, on a list that is not empty, drops the list |
| Hooks.AddHook | src/cflare/hook.c:81-123 | the whole new list after an add, and how many hooks it lost |
| Hooks.CallInOrder | src/cflare/hook.c:145-172 | calls exactly the shortest prefix that ends at a hook returning true, or all |
| Hooks.Replay | src/cflare/hook.c:54-172 | over any run of one name, what is called is what the run comes to, and unloading crashes if and only if some add of the run was not covered in that sense |
| Handles.RunIsAccounted | src/cflare/handle.c:21-182 | over any run a handle is created at most once, its count is creation plus references less unreferences while it is live, its data stays, and it is destroyed once, at zero, with that data |
| Handles.HandleTable.New | src/cflare/handle.c:37-116 | takes a free slot under a number never used before, or returns 0 exactly when 255 are live |
| Handles.HandleTable.Find | src/cflare/handle.c:21-35 | finds the slot of a live handle, and nothing for any other number |
| Handles.HandleTable.Reference | src/cflare/handle.c:118-136 | counts one more, or ends the program for a handle that is not live |
| Handles.HandleTable.Unreference | src/cflare/handle.c:138-164 | counts one less; at zero the slot is free and the deleter gets the stored data |
| Handles.HandleTable.GetData | src/cflare/handle.c:166-182 | the stored data of a live handle |
| Handles.Replay | src/cflare/handle.c:91-164 | over any allowed run of the table deleters have run as often, on the same data and in the same order, as handles were destroyed |

## Left out

- Socket setup, DNS, accept, timeouts, errno and the system calls themselves: only their answers appear.
- Coroutines, the posix mutex and threads, the hand-off of sockets to workers, logging, time, files, options, hosts: they rest on code outside the repository or only do input and output.
- The lock's identity of a thread is distinct for each thread, as the code intends; `GetCurrentThread` on Windows returns the same pseudo-handle for all.
- The slim locks let any waiter in that can enter. A writer waiting in front of new readers, as some implementations have it, is not modelled.
- The bucket mutexes of the hash table are taken only inside the table's own lock and are left out.
- Hash table counts and handle reference counts are unbounded: that they stay below 2^64 is not proved. int64 overflow of a number is not modelled either; beyond 2^53 `ToInteger` is only tied to the rounded sum.
- TableRuns.Replay: requires what the source leaves to its callers, a table that has had buckets before a removal and a positive size for a rebuild of a table that is not empty.
- Connections.ProcessSocket: does not follow a connection after a body is out of step, because the counters of the request have then wrapped around.
- Connections.Serve: the handler reads each body to its end and answers with its request's keep-alive unchanged; with a returned number other than zero, which is when the code keeps the connection but does not push back what was read ahead, nothing is said of what is delivered. How many requests are delivered is not said of a network whose reads fail.
- HeadRoundTrip.PrintedRequestParses: a good request has a space after each header's colon, no continuation line (the code answers each with 400), at most 32 known headers, and version 1.x, for 1.2 without an absolute target.
- HeadVerdicts.HeadIsTaken: the method holds no newline and the path no question mark, which the first one in the target always ends; a newline inside the method is the case of `BlankLineInMethod`.
- The rewriting of the host for an absolute target under version 1.2 is not followed; it is a verdict of its own.
- RequestHead.ParseInPlace: for a version shorter than eight bytes the bytes that decide are whatever the buffer holds there, and nothing more is said of them.
- RequestParser.ReadHeaderLines: of a value whose length has wrapped around, because its line ends at the colon, nothing is said once later lines have been cut.
- Urls.ParseQuery: an escape with a character that is neither letter nor digit ends the run, as the assertion in the number parser does.
- Hooks.Replay: one name. Names are looked up in the hash table, which is a map (`TableRuns.RunRefinesMap`), and lists of different names share no nodes.
- Hooks.CallInOrder: the functions called do not change the list they are called from.
- Handles.HandleTable.New: the type's name is shorter than its 32 bytes, as the unchecked copy demands, and the number is read back before another thread can free it.
- Error responses, the date header's text, status texts and cookies; the hookstack; `headers.c`, `httpstatus.c` and `buffer.c`, which are thin uses of what is here. Known header names are a set.
- Allocation failure.

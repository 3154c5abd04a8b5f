# A verified model of the friend server and its async framework

This project models the parts of the repository that carry its protocols and data structures, and proves what they are
relied on for. It has three groups of modules.

**The Redis client** (`friend_serv/hiredis`). `RespGrammar` gives the RESP2 reply format as a recursive grammar and as
a printer, `RespErrors` what it refuses. `RespReader` is the resumable reader of `read.c` as a class with its buffer,
cursor and nine-slot stack of read tasks, proved against that grammar; whole runs of feeding and reading are sequences
of states. `Decimal` covers the number printers and the number parser, `CommandWriter` the two command formatters,
`SdsRepr` the quoting printer and the argument splitter, `SdsArgs` the grammar of the lines it accepts, `Dict` the
chained hash table, and `AsyncCallbacks` the asynchronous context with callbacks that issue commands, disconnect or
free the context they run in.

**The conn and worker processes** (`async_server/src`). `ShmBlock` and `ShmRing` are the shared-memory ring as a class
over an array, `ShmQueue` the overflow list and the wake-up pipe around it. `ShmConcurrent` is the same ring as a
machine of single copy steps of two processes under sequential consistency, and `ShmWakeup` finds out when a wake-up
is lost. `Reassembly` and `SendList` are the two directions of a TCP connection, `Session` the LOGIN, PROTO and CLOSE
blocks from the accepting process to the worker's plugin, and `SessionRuns` what whole runs of it deliver.

**The service layer** (`friend_serv/common`). `Elements` is the tree of enabled and disabled elements, `Strategies`
the fixed and the round-robin choice, `Service` the reconnecting services with the tables they share, and
`ServiceEffects` what each event does to each service.

Bytes are integers from 0 to 255; C integers are unbounded with their limits written out where they matter. Results
of system calls are parameters: any legal count, would-block, or failure. Methods follow the source's control flow and
are proved against functions of the old state; lemmas about those functions state the properties.

Facts about the code that the proofs brought out:

- No wake-up is ever lost exactly when the pipe takes a byte for every block the ring can hold, or when there is a pipe
  at all and one handler run pulls every block the ring can hold (`ShmWakeup.WakeupExact`). With the default ring of
  8388608 bytes and a Linux pipe of 65536 bytes, the 18-byte requests of one session already lose one
  (`ShmWakeup.DefaultsLoseWakeups`).
- `recv_push` with `safe` false returns 0 also when the block was dropped (`ShmQueue.Channel.RecvPush`). A listed block
  of more than size - 17 bytes stays at the front of the list for ever, and nothing behind it is ever pulled
  (`ShmQueue.Drive`).
- `redisFormatCommandArgv` keeps the length of the command in an `int`: it produces the command exactly when that length
  is below 2^31 - 1 (`CommandWriter.PlainExact`). One argument of 3 * 10^9 bytes makes it return -1 while
  `redisFormatSdsCommandArgv` writes the command (`CommandWriter.PlainRefuses`); the two agree exactly below the same
  bound (`CommandWriter.FormattersAgree`). The latter keeps its write position in an `int` and announces argument lengths
  modulo 2^32: it produces the command exactly when the last length line ends by 2^31 - 1 and the last argument is
  shorter than 2^32 bytes (`CommandWriter.SdsExact`, with `SdsMisplaces` and `SdsTruncatesSilently` for the two ways it
  fails).
- `AddChild` breaks the tree's rule when it adds a disabled child to an enabled leaf, or an enabled child to a disabled
  element (`Elements.Element.AddChild` has the exact condition).
- `SetServiceConnected` and `SetServiceDisconnected` leave an entry without a service in the table exactly when no
  service is found by the descriptor (`Service.StaysClean`). `Init` does not overwrite such an entry, and the next call
  of `SetServiceConnected` dereferences a null pointer. A blocking connect, whose link no service has, leads there
  (`Service.BlockingLinkCrashes`), and so does a direct call of `Send` on a service that is connecting, whose link comes
  up after it has been shut down (`Service.LateLinkCrashes`).
- `Send` returns true although the link broke while sending (`Service.AsyncService.Send`). A service is given up exactly
  when an initialization of its own fails (`Service.GivesUpExactly`).
- `async_server/README.md` (lines 98 to 100) tests the link flag before a packet is handed to the plugin; the code
  (`async_server/src/shm_revent.cpp:57-60`) has that test commented out. The model follows the code.

## Model

| member | source | states |
|---|---|---|
| Decimal.String2ll | friend_serv/hiredis/read.c:157-218 | the result is v exactly when the bytes are a numeral of value v, by place, or one with a minus sign, without leading zeroes, and v fits 64 bits; both overflow tests exact |
| Decimal.ParseIntExactly | friend_serv/hiredis/read.c:157-218 | parsing yields v if and only if the bytes denote v and v fits 64 bits |
| Decimal.DecExactly | friend_serv/hiredis/sds.c:464-490 | the decimal form of n is the one string of digits, without leading zeroes, whose value by place is n |
| Decimal.IntDecExactly | friend_serv/hiredis/sds.c:432-461 | the decimal form of v is the one string of a numeral, with a minus sign for negative v, that denotes v |
| Decimal.ParseIntOfIntDec | friend_serv/hiredis/read.c:145-218 | printing any 64-bit integer and parsing it gives it back |
| Decimal.OutOfRange | friend_serv/hiredis/read.c:183-213 | the decimal form of an integer outside 64 bits is refused |
| Decimal.IntDecInjective | friend_serv/hiredis/sds.c:432-461 | different integers print differently, so a string has one reading at most |
| Decimal.SdsLl2Str | friend_serv/hiredis/sds.c:432-461 | the buffer holds bytes that denote the value, for any 64-bit signed value, the smallest included, and a final NUL, in 21 bytes |
| Decimal.SdsUll2Str | friend_serv/hiredis/sds.c:464-490 | the same for unsigned values: a numeral of that value |
| Decimal.EmitReversed | friend_serv/hiredis/sds.c:436-444 | the digit loop leaves exactly the reversed decimal digits: read backwards, a numeral of that value |
| Decimal.ReverseInPlace | friend_serv/hiredis/sds.c:451-459 | the two-pointer loop reverses its stretch of the buffer and nothing else |
| Decimal.CountDigits | friend_serv/hiredis/hiredis.c:191-201 | the four-at-a-time loop returns the number of decimal digits |
| RespGrammar.ParseExtend | friend_serv/hiredis/read.c:235-488 | more input never changes a reply or an error already determined |
| RespGrammar.ParseSpelling | friend_serv/hiredis/read.c:260-439 | every spelling of a reply, followed by anything, is read as that reply and exactly its bytes are consumed |
| RespGrammar.SpellingOfParse | friend_serv/hiredis/read.c:260-439 | whatever is read as a reply is a spelling of it followed by the rest |
| RespGrammar.SpellsInNumbers | friend_serv/hiredis/read.c:260-488 | the spellings byte by byte: type bytes 43, 45, 58, 36 and 42, line breaks 13 and 10, and a numeral for each integer, length and count |
| RespGrammar.ParseExact | friend_serv/hiredis/read.c:235-488 | a reply is read off a string, leaving a rest, if and only if the bytes in front of the rest spell it |
| RespErrors.BadExactly | friend_serv/hiredis/read.c:260-488 | a string is refused if and only if it begins with an unknown type byte, an array at level 8, or a whole line without a number that may stand there, or is an array of whole elements up to such a one; so what is neither this nor a reply waits for more |
| RespGrammar.RoundTrip | friend_serv/hiredis/read.c:260-439 | a reply's encoding reads back as itself with exactly its bytes consumed, if and only if arrays stay above level 8, texts have no line break and numbers fit |
| RespGrammar.TooDeepIsError | friend_serv/hiredis/read.c:365-377 | read from level 0, arrays nested nine deep are an error, whatever the element counts and whatever follows the type byte of the ninth |
| RespGrammar.StreamOfEncoded | friend_serv/hiredis/read.c:550-598 | a stream of encoded replies yields exactly those replies and then waits |
| RespReader.ClimbExtend | friend_serv/hiredis/read.c:235-258 | filling half-built arrays is not affected by bytes that come later |
| RespReader.ResumeExtend | friend_serv/hiredis/read.c:441-488 | reading on from half-built arrays: later bytes never change a decided outcome |
| RespReader.RunConserves | friend_serv/hiredis/read.c:518-598 | in every run of feeds and reads, replies handed out plus what the reader's state still says are the reading of all bytes fed, whatever follows |
| RespReader.DrainedRunReadsAll | friend_serv/hiredis/read.c:518-598 | a drained run has handed out exactly the replies of its input and failed exactly when the grammar does |
| RespReader.ChunkingNeverMatters | friend_serv/hiredis/read.c:518-598 | two runs fed the same bytes in any chunks, asked for replies at any moments and drained, emit the same replies and end with the same error or none |
| RespReader.Reader.SetError | friend_serv/hiredis/read.c:47-69 | an error empties the buffer and the stack and sticks |
| RespReader.Reader.SeekNewline | friend_serv/hiredis/read.c:119-143 | finds the first CR LF, and none exactly when there is none |
| RespReader.Reader.ReadLine | friend_serv/hiredis/read.c:220-233 | takes the first line and moves the cursor past its line break, or leaves the cursor alone |
| RespReader.Reader.MoveToNextTask | friend_serv/hiredis/read.c:235-258 | a finished item climbs through every array it completes; the stack index stays within -1 to 8 |
| RespReader.Reader.ProcessLineItem | friend_serv/hiredis/read.c:260-299 | status, error and integer items agree with the grammar, and errors with its errors |
| RespReader.Reader.ProcessBulkItem | friend_serv/hiredis/read.c:301-363 | bulk strings and nil agree with the grammar; an incomplete one leaves the cursor where it was |
| RespReader.Reader.ProcessMultiBulkItem | friend_serv/hiredis/read.c:365-439 | array headers agree with the grammar: opened below level 8, refused at it, empty and nil ones finished at once |
| RespReader.Reader.ProcessItem | friend_serv/hiredis/read.c:441-488 | one item is finished, opened, left waiting or refused exactly as the grammar says for its type and bytes |
| RespReader.Reader.FeedBytes | friend_serv/hiredis/read.c:518-548 | input is appended, and refused in an erroneous state |
| RespReader.Reader.Discard | friend_serv/hiredis/read.c:586-591 | dropping 1024 consumed bytes changes nothing the reader will say |
| RespReader.Reader.GetReply | friend_serv/hiredis/read.c:550-598 | the stack machine hands out the grammar's next reply, its error, or nothing and a state that reads every continuation the same |
| RespReader.SdsRange | friend_serv/hiredis/sds.c:723-749 | keeps the bytes between two inclusive positions, negative ones counted from the end, clamped to the string |
| CommandWriter.TotalIsExact | friend_serv/hiredis/hiredis.c:484-488 | the sum of the lengths computed beforehand is exactly the length of the command |
| CommandWriter.CommandInNumbers | friend_serv/hiredis/hiredis.c:546-555 | a command byte by byte: 42, the count's numeral and a line break; for each argument 36, its length's numeral, a line break, the argument and a line break |
| CommandWriter.BulkLength | friend_serv/hiredis/hiredis.c:204-206 | bulklen, a size_t, is the length of every argument's bulk string of that length |
| CommandWriter.TotalLength | friend_serv/hiredis/hiredis.c:483-488 | the summing loop of the sds formatter, in an unsigned long long |
| CommandWriter.IntTotal | friend_serv/hiredis/hiredis.c:534-539 | the summing loop of the plain formatter: its int holds the lowest 32 bits of the length, as a signed number |
| CommandWriter.FormatCommandArgv | friend_serv/hiredis/hiredis.c:524-560 | for any arguments: the command and a NUL in a buffer filled exactly, or -1, or a buffer too small for what is written, by the int the length is kept in |
| CommandWriter.PlainExact | friend_serv/hiredis/hiredis.c:534-545 | the plain formatter produces the command if and only if it is shorter than 2^31 - 1 bytes |
| CommandWriter.PlainRefuses | friend_serv/hiredis/hiredis.c:534-544 | a concrete argument, shorter than 2^32 bytes, for which only the sds formatter produces the command |
| CommandWriter.CommandReadsBack | friend_serv/hiredis/hiredis.c:524-560 | the reader gives back the array of the same argument strings, whatever bytes they hold, and consumes exactly the command |
| CommandWriter.SdsCatFmt | friend_serv/hiredis/sds.c:582-669 | appends a length line exactly when it ends at a position an int can hold |
| CommandWriter.FormatSdsCommandArgv | friend_serv/hiredis/hiredis.c:471-513 | for any arguments: the array with lengths truncated to 32 bits, or a write out of place, or a failure of the closing length assertion; the int it returns |
| CommandWriter.SdsExact | friend_serv/hiredis/hiredis.c:498-509 | the sds formatter produces the command if and only if there are no arguments, or the last length line ends by 2^31 - 1 and the last argument is shorter than 2^32 bytes |
| CommandWriter.SdsMisplaces | friend_serv/hiredis/sds.c:588-663 | two concrete arguments, both shorter than 2^32 bytes, of which the second is written out of place |
| CommandWriter.FormattersAgree | friend_serv/hiredis/hiredis.c:471-560 | the two formatters both produce the same command if and only if it is shorter than 2^31 - 1 bytes |
| CommandWriter.SdsTruncatesSilently | friend_serv/hiredis/sds.c:636-651 | a concrete argument whose wrong length passes the closing assertion |
| SdsRepr.SdsCatRepr | friend_serv/hiredis/sds.c:867-890 | appends the quoted form of the bytes |
| SdsRepr.ReprIsPrintable | friend_serv/hiredis/sds.c:867-890 | a quoted form has printable bytes only |
| SdsRepr.SdsSplitArgs | friend_serv/hiredis/sds.c:942-1058 | the scanning loops split a line as the recursive reading of its arguments does, and fail exactly when that fails; `SdsArgs.SplitExactly` says which lines and arguments these are |
| SdsRepr.ScanToken | friend_serv/hiredis/sds.c:957-1034 | the inner loop with its two quoting flags reads exactly one argument |
| SdsRepr.SplitRepr | friend_serv/hiredis/sds.c:942-1058 | a quoted form at the front of a line is read as the string it was printed from |
| SdsRepr.SplitOfReprs | friend_serv/hiredis/sds.c:867-1058 | joining the quoted forms of any strings with single spaces and splitting gives the same strings |
| SdsRepr.ReprInjective | friend_serv/hiredis/sds.c:867-890 | different strings have different quoted forms |
| SdsArgs.SplitOfLine | friend_serv/hiredis/sds.c:942-1058 | a line of blanks, bare and quoted arguments, each ended by a byte that may end it, is split into what those arguments mean |
| SdsArgs.LineOf | friend_serv/hiredis/sds.c:942-1058 | every line that is split at all is such a line with those arguments |
| SdsArgs.SplitExactly | friend_serv/hiredis/sds.c:942-1058 | a line is split into given arguments if and only if it is a line of the grammar with those arguments; every other line fails |
| SdsArgs.SplitWords | friend_serv/hiredis/sds.c:949-1016 | words without quotes are split at any runs of blanks that begin with a space, tab or line break |
| SdsArgs.ReprSpells | friend_serv/hiredis/sds.c:867-890 | a quoted form is a quoted argument of that grammar, every byte written by the escape listed for it, and means the string |
| Dict.AndMask | friend_serv/hiredis/dict.c:193-193 | hash and mask is the hash modulo the size, so always a bucket, for sizes that are powers of two |
| Dict.NextPower | friend_serv/hiredis/dict.c:306-315 | the smallest power of two from 4 on that is not below the size asked for |
| Dict.ChainSkip | friend_serv/hiredis/dict.c:197-201 | making an entry's predecessor skip it leaves a chain of all the others |
| Dict.ChainedPut | friend_serv/hiredis/dict.c:110-116 | an entry put in front of the bucket of its key keeps every entry in its bucket |
| Dict.LeftStep | friend_serv/hiredis/dict.c:106-119 | relinking one entry into the new table leaves the rest of the old chains intact although they share the links |
| Dict.ChainedSkip | friend_serv/hiredis/dict.c:193-206 | after an entry is skipped and freed every other entry is still in the chain of its bucket |
| Dict.Table.Find | friend_serv/hiredis/dict.c:243-256 | finds the entry of a key with its value if and only if the map has the key |
| Dict.Table.MoveBucket | friend_serv/hiredis/dict.c:101-121 | the inner loop moves exactly the entries of one bucket |
| Dict.Table.Rehash | friend_serv/hiredis/dict.c:98-124 | the in-place relinking moves all entries, used reaching 0, keys and values unchanged |
| Dict.Table.Expand | friend_serv/hiredis/dict.c:88-132 | growing preserves the map; it fails exactly when used exceeds the size asked for and then changes nothing |
| Dict.Table.ExpandIfNeeded | friend_serv/hiredis/dict.c:295-303 | the first table has four buckets and the size doubles exactly when the table is full; the map is unchanged |
| Dict.Table.KeyIndex | friend_serv/hiredis/dict.c:320-337 | -1 exactly when the key is present, else the key's bucket |
| Dict.Table.Add | friend_serv/hiredis/dict.c:135-154 | adds the key exactly when it was absent, otherwise the map is unchanged |
| Dict.Table.Replace | friend_serv/hiredis/dict.c:160-179 | the map is updated at the key; the result tells whether the key was new |
| Dict.Table.Delete | friend_serv/hiredis/dict.c:182-210 | removes the key and frees its entry, successful exactly when it was present |
| AsyncCallbacks.CallbackList.Push | friend_serv/hiredis/async.c:227-247 | the linked list gets the callback at its end |
| AsyncCallbacks.CallbackList.Shift | friend_serv/hiredis/async.c:249-263 | the first callback is unlinked and returned, or the list is empty |
| AsyncCallbacks.Context.Command | friend_serv/hiredis/async.c:597-675 | a plain command is queued and its bytes appended, and refused exactly when the context is being disconnected or freed |
| AsyncCallbacks.Context.RunCallback | friend_serv/hiredis/async.c:265-272 | the callback runs once; its commands are accepted up to its first disconnect or free, which only mark the context |
| AsyncCallbacks.Context.RunActions | friend_serv/hiredis/async.c:265-272 | the effect of any sequence of calls made inside a callback on commands, flags and list |
| AsyncCallbacks.Context.FreeContext | friend_serv/hiredis/async.c:275-317 | the waiting callbacks run once each, in order, with NULL, then the context is freed, once |
| AsyncCallbacks.Context.AsyncFree | friend_serv/hiredis/async.c:323-328 | frees at once outside callbacks, and only marks the context inside one |
| AsyncCallbacks.Context.DisconnectNow | friend_serv/hiredis/async.c:331-350 | the assertion of the clean case holds, and the context ends up freed once |
| AsyncCallbacks.Context.AsyncDisconnect | friend_serv/hiredis/async.c:358-363 | frees at once exactly when outside a callback with nothing waiting |
| AsyncCallbacks.Context.Deliver | friend_serv/hiredis/async.c:449-495 | the whole new history: a reply goes to the oldest waiting command, whose callback runs next with it, and the context goes only if that callback frees it; with none waiting an error reply closes the context with err and any other fails the assertion |
| AsyncCallbacks.Context.Claimed | friend_serv/hiredis/async.c:480-495 | a reply for a command taken off the list: it is that command's answer, its callback runs next with it, and the context is freed exactly when the callback frees it |
| AsyncCallbacks.Context.ProcessCallbacks | friend_serv/hiredis/async.c:425-503 | hands over every complete reply; the context lives on, is freed once, or has failed the assertion |
| AsyncCallbacks.Context.HandleRead | friend_serv/hiredis/async.c:530-549 | after a read, every complete reply of all bytes read has been handed over, or the context is gone |
| AsyncCallbacks.Context.HandleWrite | friend_serv/hiredis/async.c:551-576 | bytes written and bytes still buffered are the accepted commands in order |
| AsyncCallbacks.Context.Drive | friend_serv/hiredis/async.c:425-576 | whole runs of user actions and socket events, callbacks doing anything: each reply went to the command it answers; a freed context has run every accepted command's callback once; and it goes only if the user or a callback wanted it gone, a read or write failed, the bytes hold a protocol error, or an error reply came with nothing waiting |
| AsyncCallbacks.Context.Account | friend_serv/hiredis/async.c:275-503 | freed once at most; every reply seen was an answer, but for the one that ended the context; a context freed without error and without redisAsyncFree has given every command its reply |
| AsyncCallbacks.EachRunsOnce | friend_serv/hiredis/async.c:425-495 | the runs due are one per command, in order, the i-th with the i-th reply or NULL |
| AsyncCallbacks.EveryCommandAnswered | friend_serv/hiredis/async.c:275-495 | in a context that is gone the i-th run is the i-th accepted command's, with the i-th reply of the bytes read, or NULL |
| AsyncCallbacks.ReadingGet | friend_serv/hiredis/hiredis.c:850-886 | replies seen plus what the reader still says remain the reading of all bytes |
| AsyncCallbacks.ReadingFailed | friend_serv/hiredis/async.c:500-502 | when the reader has failed, the bytes read hold a protocol error right after the replies seen |
| ShmBlock.ImageRoundTrip | async_server/src/shmq.h:14-20 | header and body are recovered from a block's bytes |
| ShmBlock.HeadLayout | async_server/src/shmq.h:14-20 | descriptor, id and length lie in bytes 0, 4 and 8, four bytes each, and the type in byte 12 |
| ShmBlock.PosAdvance | async_server/src/shmq.cpp:20-56 | the stored position after any number of bytes: 0 at the start, then 1 to size, never 0 again |
| ShmBlock.SlotsDistinct | async_server/src/shmq.cpp:14-58 | bytes less than a full turn apart never share a slot |
| ShmBlock.UsedIsExact | async_server/src/shmq.cpp:16-29 | from the two stored positions alone the bytes in use follow, empty never mistaken for full |
| ShmRing.CollectIsData | async_server/src/shmq.cpp:79-118 | the copy out of the ring in one or two parts is the data stored there |
| ShmRing.Ring.Push | async_server/src/shmq.cpp:14-58 | the queue gets the block at its end, or is left alone exactly when the block and one spare byte do not fit |
| ShmRing.Ring.Pull | async_server/src/shmq.cpp:60-121 | the oldest block, header and body intact, or none exactly when the queue is empty |
| ShmQueue.Channel.WritePipe | async_server/src/shmq.cpp:296-300 | one byte, dropped when the pipe is full |
| ShmQueue.Channel.Pruge | async_server/src/shmq.cpp:264-278 | ring and list together stay the same sequence, and the ring takes as many blocks as fit; the list empties exactly when everything fits |
| ShmQueue.Channel.RecvPush | async_server/src/shmq.cpp:198-224 | the block is appended to the sequence or dropped, by an exact condition; it never overtakes a listed one; the exact return value |
| ShmQueue.Channel.RecvPull | async_server/src/shmq.cpp:226-229 | takes the oldest block of the ring, the first of the sequence, or reports an empty ring |
| ShmQueue.Drive | async_server/src/shmq.cpp:198-278 | over any calls the blocks pulled and those still queued are those there at first and those taken, in order, every safe block shorter than the ring among them; behind a block that never fits nothing moves any more |
| ShmConcurrent.StepInv | async_server/src/shmq.cpp:14-121 | every single step of either process keeps the ring's invariant |
| ShmConcurrent.ReachableInv | async_server/src/shmq.cpp:14-121 | the invariant holds in every reachable state of every interleaving |
| ShmConcurrent.PulledIsPrefixOfPushed | async_server/src/shmq.cpp:14-121 | at every moment the blocks pulled are a prefix of the blocks pushed and the others lie whole in the ring |
| ShmConcurrent.UnreadBytesSurvive | async_server/src/shmq.cpp:14-58 | no step overwrites a byte published and not yet read |
| ShmConcurrent.NeverStuck | async_server/src/shmq.cpp:14-121 | a push or a handler run in progress always has a next step |
| ShmConcurrent.AccountedStep | async_server/src/shm_revent.cpp:43-77 | if the pipe takes a byte for every block the ring can hold, unread blocks stay covered by pipe bytes, a pending write or the running handler's pulls |
| ShmConcurrent.NoLostWakeup | async_server/src/shm_revent.cpp:43-77 | then in no reachable state are there unread blocks and nothing left to wake the handler |
| ShmWakeup.WakeupLost | async_server/src/shmq.cpp:296-306 | otherwise, unless one handler run pulls all the ring can hold, a run is constructed in which one session loses a wake-up by its LOGIN and CLOSE blocks only |
| ShmWakeup.SmallRingWakes | async_server/src/shm_revent.cpp:43-77 | with any pipe at all, a ring that holds no more blocks than one handler run pulls loses no wake-up |
| ShmWakeup.WakeupExact | async_server/src/shm_revent.cpp:43-77 | for every ring and every pipe: no run loses a wake-up if and only if the pipe takes a byte for every block of a full ring, or is not of size 0 and one handler run pulls a full ring |
| ShmWakeup.DefaultsLoseWakeups | async_server/src/main.cpp:201-201 | the default ring and a 64 KiB pipe lose a wake-up to one session, its LOGIN and then requests that are a packet header only |
| Session.MakeId | async_server/src/reactor.h:68-71 | ids are never 0, wrap-around included |
| SessionRuns.MakeIdCounts | async_server/src/reactor.h:68-71 | the k-th id is k, counted round from 1 to 2^32 - 1 |
| SessionRuns.SameIdExactly | async_server/src/reactor.h:68-71 | two sessions share an id if and only if a multiple of 2^32 - 1 accepts lies between them |
| Session.Conn.Start | async_server/src/tcp_socket.cpp:36-77 | a new session gets an id and logs in on every channel |
| Session.Conn.Dispatch | async_server/src/tcp_socket.cpp:126-178 | a delivered packet puts one PROTO block, with the session's id, at the end of its channel and of no other |
| Session.Conn.HandleError | async_server/src/tcp_socket.cpp:232-245 | the end of a session is announced on every channel unless shut has done so |
| Session.Conn.ShutDown | async_server/src/tcp_socket.cpp:268-283 | shut announces the end at once and lets the list drain |
| Session.ConnNextInv | async_server/src/tcp_socket.cpp:36-283 | no step of the conn process breaks the protocol of any descriptor on any channel; what a step pushes is in `SessionRuns.SessionOnChannel` |
| Session.ConnRunInv | async_server/src/tcp_socket.cpp:36-283 | on every channel of every run, with descriptors reused, sessions are LOGIN, PROTO, CLOSE in this order before the next LOGIN |
| Session.DriveConn | async_server/src/tcp_socket.cpp:36-283 | the conn process's object goes through exactly the runs of which `SessionRuns.SessionOnChannel` says what they push |
| SessionRuns.SessionOnChannel | async_server/src/tcp_socket.cpp:36-283 | in every run, from one accept of a descriptor to the next a channel is told exactly: nothing if refused, else one LOGIN with the id of that accept, one PROTO per packet delivered to it, a CLOSE per shut and one for an error unless shut before |
| SessionRuns.NothingBefore | async_server/src/tcp_socket.cpp:36-283 | before its first accept no channel holds anything of a descriptor |
| Session.WorkerStepByFd | async_server/src/shm_revent.cpp:57-72 | one block or close of the worker moves its own descriptor by the session rules and leaves every other descriptor alone |
| Session.Worker.NetCloseCli | async_server/src/net.cpp:106-120 | clears the flag and sends a CLOSE back, if the session was up |
| Session.SessionExactly | async_server/src/shm_revent.cpp:57-72 | what a session makes of the worker after any past and with any closes of its own: link_up first, every packet with the session's nonzero id, link_down once or never, by an exact condition |
| Session.UndisturbedSession | async_server/src/shm_revent.cpp:61-67 | a closed session the worker never closed itself is taken down exactly once |
| Session.DriveWorker | async_server/src/shm_revent.cpp:43-77 | so does the worker's, over any blocks and any closes of its own |
| Session.WorkerRunByFd | async_server/src/shm_revent.cpp:43-77 | calls and flag of a descriptor depend on its own events alone |
| Session.WorkerSeesProtocol | async_server/src/shm_revent.cpp:43-77 | any prefix a worker has taken of its channel is within the protocol |
| Session.SystemSessions | async_server/src/shm_revent.cpp:43-77 | in every run of the conn process, every worker makes exactly the calls of its sessions so far, one session after the other |
| SessionRuns.SystemDelivers | async_server/src/shm_revent.cpp:43-77 | a worker that has taken all a run pushed to its channel has, for the last session of a descriptor, called link_up once, proc_pkg once per packet delivered with that session's id, and link_down at most once, exactly if the session was ended when the worker did not close it itself |
| Reassembly.CutExtend | async_server/src/tcp_socket.cpp:129-178 | more bytes continue a framing from its tail; a bad length is final |
| Reassembly.CutExactly | async_server/src/tcp_socket.cpp:101-193 | the cut is the one framing there is: each packet has the length told at its start, and the rest is no whole packet, or begins with a bad length |
| Reassembly.PassedExactly | async_server/src/tcp_socket.cpp:143-152 | the first packet the plugin refuses is the last one dispatched |
| Reassembly.SplittingNeverMatters | async_server/src/tcp_socket.cpp:79-193 | however recv splits the stream, packets, failure and tail are those of framing all bytes at once |
| Reassembly.Socket.HandleInput | async_server/src/tcp_socket.cpp:79-193 | a call dispatches exactly the packets of tail and new bytes, up to one the plugin refuses, and keeps the new tail with room for more, or fails on a bad length or a refused packet |
| Reassembly.Socket.Drive | async_server/src/tcp_socket.cpp:79-193 | over any calls, whatever recv takes of a stream, the packets dispatched are the framing of everything received, up to one refused; on success the buffer holds its tail |
| Reassembly.Socket.CutPackets | async_server/src/tcp_socket.cpp:101-190 | the cutting loop with its growing and moving is the greedy framing of the buffer, ended early by a refused packet |
| Reassembly.HeaderLenStable | async_server/README.md:160-168 | the 18-byte packet header of the documentation is a length function of the kind the proofs take |
| SendList.ConservedAppend | async_server/src/tcp_socket.cpp:285-318 | a packet appended to a non-empty list keeps bytes sent plus bytes listed equal to the packets accepted |
| SendList.ConservedDirect | async_server/src/tcp_socket.cpp:319-357 | so does a packet partly sent and partly listed |
| SendList.DrainsExactly | async_server/src/tcp_socket.cpp:199-222 | whatever the kernel answers, never more is sent than waits, and the list runs empty exactly when all of it is sent |
| SendList.DrainsStop | async_server/src/tcp_socket.cpp:199-222 | sending stops at the first call that takes nothing: with an error exactly when the kernel reports the connection broken, and to go on later otherwise |
| SendList.Sender.SendPkg | async_server/src/tcp_socket.cpp:285-357 | accepted whole or dropped whole, dropped exactly when the list is at its limit; nothing lost, duplicated or reordered |
| SendList.Sender.HandleOutput | async_server/src/tcp_socket.cpp:195-230 | sends exactly what the kernel takes from the list; a closed connection ends exactly when every accepted byte has been sent |
| SendList.Sender.Shut | async_server/src/tcp_socket.cpp:268-283 | closes at once only when nothing waits |
| Elements.Element.Enable | friend_serv/common/strategy.cpp:10-16 | enabling a leaf of settled trees settles them again and changes no other leaf |
| Elements.Element.AfterEnable | friend_serv/common/strategy.cpp:44-56 | climbs while elements are disabled; everything is settled if only the parent was not |
| Elements.Element.Disable | friend_serv/common/strategy.cpp:18-25 | disabling a leaf of settled trees settles them again and changes no other leaf |
| Elements.Element.AfterDisable | friend_serv/common/strategy.cpp:58-81 | climbs while no child is enabled; everything is settled if only the parent was not |
| Elements.Element.AddChild | friend_serv/common/strategy.cpp:27-42 | the trees stay settled if and only if a leaf gets a child in its own state, or an inner element that is enabled whenever the child is |
| Elements.LeavesDecide | friend_serv/common/strategy.h:11-13 | in settled trees an element is enabled exactly when a leaf at or below it is |
| Strategies.ChooseFixed | friend_serv/common/strategy.cpp:95-106 | the first enabled element, none exactly when none is enabled |
| Strategies.RollStrategy.ChooseByNothing | friend_serv/common/strategy.cpp:125-143 | the first enabled element from the current place on, none exactly when none is enabled |
| Strategies.NextExactly | friend_serv/common/strategy.cpp:125-143 | from the current place the search goes up to the last element and then from the first up to the place: every element passed over is disabled |
| Strategies.RoundIsFair | friend_serv/common/strategy.cpp:125-143 | among n choices in a row every element enabled throughout is chosen, and each exactly once if all stay enabled |
| Service.NextFine | friend_serv/common/service.cpp:305-436 | every event keeps the services, the table and the timer's set in order; a clean table becomes unclean exactly by a link event for a descriptor by which no service is found |
| Service.NoneLost | friend_serv/common/service.cpp:305-436 | in every state of every run, link events for any descriptor included, a service to be kept up is enabled, or the timer has it, and not both |
| Service.StaysClean | friend_serv/common/service.h:136-160 | a run from a clean table stays clean, so cannot crash, if and only if no link event comes for a descriptor by which no service is found |
| Service.GivesUpExactly | friend_serv/common/service.cpp:305-398 | after one event a service to be kept up is neither enabled nor in the timer's set if and only if an initialization of its own failed: it was enabled already, or the attempt to connect was refused for good |
| Service.GivenUpByItsOwn | friend_serv/common/service.cpp:305-436 | in every run a service that has come to be kept up is given up later only by such an event |
| ServiceEffects.EnabledExactly | friend_serv/common/service.cpp:305-436 | after an event a service is enabled if and only if that event is the link event that finds it, or it was enabled, has not lost its link and was not initialized |
| ServiceEffects.WaitingExactly | friend_serv/common/service.cpp:305-436 | exactly what an event puts into and takes out of the timer's set |
| ServiceEffects.ConnectingExactly | friend_serv/common/service.cpp:305-436 | a service is connecting on a descriptor since a time exactly when an attempt of its own just got it, or as long as its link neither comes up nor is lost and no initialization finds timeoutMs over |
| ServiceEffects.Linked | friend_serv/common/service.cpp:364-371 | a link event enables the service it finds, on that descriptor, and takes it from the timer |
| ServiceEffects.Lost | friend_serv/common/service.cpp:401-436 | a lost link, a refused send or a broken one disables the service and gives it to the timer |
| ServiceEffects.Initialized | friend_serv/common/service.cpp:305-398 | within timeoutMs an attempt goes on untouched, beyond it a new one is made on the new descriptor; refused ones leave the service out of everything |
| ServiceEffects.OthersUntouched | friend_serv/common/service.cpp:305-436 | every other service keeps its state |
| ServiceEffects.EntryExactly | friend_serv/common/service.cpp:305-436 | exactly what an event makes of the table: a descriptor given up has no entry, a new one leads to its service unless an entry is there, and a link event that finds no service leaves an entry without one |
| ServiceEffects.EnabledSince | friend_serv/common/service.cpp:305-436 | in every run a service is enabled if and only if its link came up at some event, or it was enabled at first, and since then it has neither lost its link nor been initialized |
| Service.LateLinkCrashes | friend_serv/common/service.h:136-150 | a concrete run, with a send while connecting, that ends in the crash |
| Service.BlockingLinkCrashes | friend_serv/async-server/src/tcp_linker.cpp:57-58 | from any clean table, one link of a blocking connect and any link after it end in the crash |
| Service.Registry.SetServiceConnected | friend_serv/common/service.h:136-150 | crashes exactly when an entry has no service; otherwise the descriptor's service is enabled and out of the timer's set, no other service changed, or an entry without one is left |
| Service.Registry.CountEnabled | friend_serv/common/service.h:137-141 | the counting loop dereferences a null pointer exactly when an entry has no service |
| Service.Registry.SetServiceDisconnected | friend_serv/common/service.h:152-160 | the descriptor's service is disabled, without descriptor and in the timer's set; for an unknown descriptor an entry without a service is left |
| Service.AsyncService.Shut | friend_serv/common/service.cpp:373-386 | the service is disabled, without descriptor and out of both tables |
| Service.AsyncService.Init | friend_serv/common/service.cpp:305-361 | the exact success condition, and what the call makes of the service, the table and the timer's set |
| Service.AsyncService.Connect | friend_serv/common/service.cpp:333-360 | the three results of a connection attempt; an entry already there is not overwritten |
| Service.AsyncService.LinkUp | friend_serv/common/service.cpp:364-371 | the service is enabled and leaves the timer's set |
| Service.AsyncService.ReInit | friend_serv/common/service.cpp:388-398 | an attempt within timeoutMs goes on with its descriptor and time, otherwise a new one starts with the time of now; the exact success condition |
| Service.AsyncService.LinkDown | friend_serv/common/service.cpp:401-414 | the service is disabled, unregistered and given to the timer |
| Service.AsyncService.Send | friend_serv/common/service.cpp:416-436 | a refused or broken send gives the service to the timer; only the refused one returns false |
| Service.Drive | friend_serv/common/service.cpp:305-436 | the objects follow the run of events, up to a crash, which comes exactly as stated |

## Left out

- Allocation failure, worker crash and restart on a live ring, and weak memory ordering: malloc succeeds, both processes stay up, memory is sequentially consistent.
- Sockets, epoll, fork, mmap, signals, logging and clocks: their results are parameters.
- RespReader.Reader.GetReply: positions are unbounded, because buffers of 2^31 bytes and more, where the `int` positions of the source wrap, are not modelled; the buffer-shrinking branch of `redisReaderFeed` (`maxbuf`) changes no content and is not either.
- The reader's reply objects are values in half-built arrays, not heap objects linked by parent pointers; `create*Object` and `freeReplyObject` are the storing of such a value.
- CommandWriter.FormatCommandArgv: `totlen + 1` is taken to wrap around at 2^31 - 1, where the source leaves it undefined; what is written past a buffer too small is not followed.
- CommandWriter.FormatSdsCommandArgv: what is written out of place is not followed, nor a failing allocation.
- AsyncCallbacks.Context.HandleWrite: output buffers of 2^31 bytes and more, where the `int` positions `sdsrange` takes wrap, are not modelled.
- Decimal.SdsLl2Str: negating the smallest value is taken mathematically, where the source relies on wrap-around.
- RespReader.Reader.ProcessBulkItem: `len + 2` is taken mathematically.
- `redisvFormatCommand`, `sdscatvprintf` and the growth policy of `sdsMakeRoomFor`, with the header fields of `sds.h`: strings are values that are as long as they are.
- Dict.Table.Add: fewer than 2^31 entries, because bucket numbers are `int` in the source; the address of a new entry is a parameter. Entries are kept in a map from addresses to entries, so the links are real but reading freed memory is excluded by construction.
- Pub/sub, MONITOR and the connect phase of `async.c`; calls from the connect and disconnect callbacks, which get a const context.
- AsyncCallbacks.Context.Command: `nextArgument` and the recognition of pub/sub commands are not modelled, every command is a plain one.
- Reassembly.Socket.MoveDown: the overlapping `memcpy` of the source is taken as a `memmove`.
- SendList.Sender.SendPkg: packets are not empty, and `send` does not return 0 for bytes offered; the source treats such a 0 as an error depending on an old errno.
- The early return of `c_tcp_linker::handle_input` after `proc_pkg_ser`; its send path is the one of `SendList` without the limit.
- `c_sevent` does not compare a block's id with the handler's, so replies are not claimed to match sessions across descriptor reuse.
- Reassembly.Socket.Dispatch: `select_channel` and the choice of the worker are not modelled, nor whether the push is accepted (`ShmQueue`); the `shmq_pushed` hook is a function of the packet's number.
- `send_push` and `pruge_send` are the same code as `recv_push` and `pruge_recv` on the other ring.
- Service.AsyncService.ReInit: one call at a time, because `ProcessReInit` erases from the set it iterates over.
- Service.AsyncService.Init: `async_net_connect_ser` (`friend_serv/async-server/src/net.cpp:73-105`) is a parameter, and a new descriptor is none whose link some service is found by.
- `SyncService`, `IntRegionStrategy` and `StringRegionStrategy`: blocking calls and one-line arithmetic.
- Strategies.RollStrategy.ChooseByNothing: the counter does not overflow.
- Elements.Element.AddChild: the child is the root of another tree; the source does not check, and a child with two parents would not be a tree.
- Configuration, log rotation, PHP code, storage headers and alert scripts: file and network input with easy logic.

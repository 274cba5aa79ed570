# A verified model of the apophnia image server

Apophnia is an image server in C: a JSON configuration reader (`C/cjson/cJSON.c`), an embedded
web server (`C/mongoose/mongoose.c`), and the code that cuts directives out of an image name
and finds the original (`C/apophnia.c`).  This project models the parts of it with the most
state and arithmetic, and proves what they promise.  `dafny verify dfyconfig.toml` checks it.

Bytes are modelled as `char`, C strings as `string` without the terminating null byte, and a
pointer into a text as the part of the text it points at; buffers that are written are arrays,
and every write is proved to be inside them.  Words of 32 bits are integers with the
wrap-around written out.

## What the files are about

* `Common.dfy` has the few definitions that all files share.
* `JsonText.dfy` says what the JSON printer writes and what the parser reads, as functions;
  `JsonLiteral.dfy` says what string literals denote by section 7 of RFC 8259.  `JsonGrammar.dfy`
  has the accepted texts as syntax trees with all their blanks, and `JsonErrors.dfy` the rejected
  ones as trees that break off; neither mentions the parser, and the parser reads exactly the
  former and rejects exactly the latter.  `JsonRoundTrip.dfy` proves that parsing undoes printing.
* `CJson.dfy` has the items on the heap: a doubly linked list of children, ownership, detaching,
  replacing, references, and deletion.  `CJsonParser.dfy` and `CJsonPrinter.dfy` are the parser
  and the printer that build and walk these items; they are proved against the functions of
  `JsonText.dfy`, with all buffer sizes computed before the buffers are filled.
* `WorkerPool.dfy` is the accept queue: one master, any number of workers, a ring of 20 slots, a
  mutex and three condition variables, as a step relation in which a thread can be asleep,
  signalled but not yet running, or woken for no reason.  `WorkerShutdown.dfy` says when the
  server can be stopped and when it hangs instead.
* `HttpFraming.dfy` cuts the byte stream of a connection into pipelined requests, whatever
  pieces the bytes arrive in.
* `GlobMatcher.dfy` shows that the greedy pattern matcher returns the longest match.
* `Digests.dfy` has the streaming halves of MD5 and SHA-1, for any compression function.
* `UrlCodec.dfy` has percent encoding, decoding in place, and the lookup of form variables.
* `PathNormaliser.dfy` cleans a path in its own buffer.
* `DirectiveSearch.dfy` says which file the search for an original comes to, cut by cut;
  `Directives.dfy` is that search on buffers, with the clauses on a stack, and their replay;
  `OffsetDirective.dfy` reads and writes the numbers of the offset directive.
* `ChatRing.dfy` is the message ring of the chat example and a client that polls it.

## Where the code does less than it seems to

Each of these is a theorem that says exactly when the code meets its purpose, and for each there is
a concrete input on which it does not.

* Printing drops the control characters it has no escape for, so the JSON round trip gives back
  the value if and only if it has none of them (`JsonRoundTrip.RoundTripIff`,
  `JsonRoundTrip.ControlCharacterIsLost`).
* A string literal is stored as the bytes it denotes if and only if it has no half of a surrogate
  pair; the pair for U+1F600 is stored as six bytes that decode to nothing
  (`JsonLiteral.LiteralIsRead`, `JsonLiteral.PairIsStoredAsHalves`).
* The next pipelined request begins where the last one ends if and only if the body was
  buffered altogether or read to its end (`HttpFraming.Connection.Discard`,
  `HttpFraming.RequestsAreCutExactly`, `HttpFraming.UnreadBody`).
* A server that has been told to stop gets stuck, but for spurious wake-ups, in exactly two kinds of
  state: the master waits for room in the queue and every worker has left, or it waits for workers
  to leave and those that have not left all sleep (`WorkerShutdown.StuckIffHung`).  Both are
  reached.  In the first the workers see the stop and leave without coming back for a socket, so
  that nobody signals the master in `produce_socket`
  (`WorkerShutdown.ShutdownCanHangWhileAccepting`); the second comes from a broadcast made without the mutex, which misses a worker that is about to fall asleep
  (`WorkerShutdown.BroadcastReachesAll`, `WorkerShutdown.BroadcastMissed`,
  `WorkerShutdown.ShutdownCanHang`).
* The documentation promises that an original is found through a chain of directives and
  through the fallbacks of its format.  The search overwrites the requested extension with the
  last fallback it tried.  If the file asked for is missing and nothing is there at the cuts before
  the last, the original is found exactly when it has an extension that is tried at the last cut
  (`DirectiveSearch.OriginalIsFoundIff`, `DirectiveSearch.TriesByCuts`).  If something is there at
  an earlier cut, the first such cut decides: the extension that stands there at that cut is
  served; a fallback is not, but takes its place for the cuts that are left, with the file found
  forgotten (`DirectiveSearch.EarlierHitDecides`, `DirectiveSearch.NearestIsForgotten`).  The
  documentation's own example of a chain is not served
  (`DirectiveSearch.ChainingExampleIsNotServed`).
* A zero is written with no digits, so the offset directive is read back as written if and only if
  its width is not zero or both offsets are (`OffsetDirective.OffsetOfRenderedIff`,
  `OffsetDirective.ZeroWidthShifts`).
* The encoder writes the encoding if and only if it fits; otherwise it leaves bytes unwritten in the
  middle (`UrlCodec.EncodesIffRoom`, `UrlCodec.NoRoomForEscape`).
* A polling chat client misses nothing if and only if at most five messages come between two polls
  (`ChatRing.MissesNothingIff`, `ChatRing.BurstLosesTheFirst`).  A query stays in the ring if and
  only if its cursor is not negative, five messages have been posted, or none has and the cursor is
  -5 or less (`ChatRing.Chat.StaysInRingIff`, `ChatRing.NegativeSlot`).
* The guard of the SHA-1 update adds in 32 bits and is right if and only if the sum does not wrap
  (`Digests.GuardIsRightIff`, `Digests.GuardWraps`); `Digests.Sha1.Update` requires that, and nothing
  else about lengths.  No caller in the repository passes a length that makes it wrap.

## Model

| member | source | states |
|---|---|---|
| JsonRoundTrip.ParseOfPrint | C/cjson/cJSON.c:250-453 | For every tree with C int numbers, of any depth, compact or indented: parsing the printed text consumes all of it and gives the tree back, up to the control characters the printer drops. |
| JsonRoundTrip.RoundTripIff | C/cjson/cJSON.c:187-220 | The tree itself comes back exactly when no string or name in it has a control character other than the five with an escape. |
| JsonRoundTrip.ControlCharacterIsLost | C/cjson/cJSON.c:187-220 | The string with the one character U+0001 comes back empty, in both layouts. |
| JsonRoundTrip.LayoutsAgree | C/cjson/cJSON.c:246-247 | The compact and the indented text of a tree denote the same tree. |
| JsonRoundTrip.ReprintIsStable | C/cjson/cJSON.c:246-262 | Printing what was parsed from a printed text gives the same text again. |
| JsonRoundTrip.ParsePrintedValue | C/cjson/cJSON.c:250-280 | The round trip of a value inside a larger text: exactly the printed part is consumed. |
| JsonRoundTrip.ParsePrintedItems | C/cjson/cJSON.c:283-359 | The same for the items of an array behind its opening bracket. |
| JsonRoundTrip.ParsePrintedMembers | C/cjson/cJSON.c:362-453 | The same for the members of an object behind its opening brace. |
| JsonRoundTrip.ParsePrintedString | C/cjson/cJSON.c:139-220 | A printed string literal is read back as its characters that survive printing, and nothing behind it is touched. |
| JsonRoundTrip.ParsePrintedNumber | C/cjson/cJSON.c:92-123 | A printed C int is read back as itself. |
| JsonRoundTrip.PrintedText | C/cjson/cJSON.c:265-453 | The printed text is that of a syntax tree with this layout: compact, or each member on a line of its own with as many tabs as it is deep, a tab behind the colon, a blank behind the comma of an array, and the brace one tab less. |
| JsonRoundTrip.PrintedMeans | C/cjson/cJSON.c:187-220 | That tree is one of the grammar of RFC 8259 and means the value without the characters that are dropped; every other character stands for itself or for its short escape. |
| JsonRoundTrip.ScrubIdentity | C/cjson/cJSON.c:196-214 | Dropping characters leaves a tree alone exactly when it has none to drop. |
| JsonRoundTrip.PrintOfScrub | C/cjson/cJSON.c:196-214 | The dropped characters leave no trace in the text. |
| JsonRoundTrip.SkipStaysInside | C/cjson/cJSON.c:233 | Skipping blanks runs over the terminator exactly when only blanks and control characters are left. |
| JsonGrammar.ReadsIff | C/cjson/cJSON.c:250-453 | A value is read off a text, and a rest is left, exactly when the text is that of an accepted syntax tree that means the value, with any blanks between any two tokens, in front of that rest. |
| JsonGrammar.ParseIff | C/cjson/cJSON.c:236-243 | The same for cJSON_Parse, behind any blanks. |
| JsonGrammar.StrictIsRead | C/cjson/cJSON.c:236-453 | Every text of the grammar of RFC 8259 whose numbers are integers in the range of a C int is read as what it means. |
| JsonGrammar.ValueIsTaken | C/cjson/cJSON.c:250-262 | Every accepted text is read to its end and as what it means, in front of anything that does not prolong it. |
| JsonGrammar.ValueWas | C/cjson/cJSON.c:250-262 | Whatever was read is the text of an accepted tree that means what was read. |
| JsonGrammar.NumberIsTaken | C/cjson/cJSON.c:92-112 | An optional minus sign, an optional zero and digits are read as the number that the digits stand for by their places. |
| JsonErrors.RejectsIff | C/cjson/cJSON.c:250-453 | A text is rejected exactly when it is that of a tree that breaks off: at a value that begins like none, or behind complete items or members at a missing comma, bracket, brace, name or colon. |
| JsonErrors.ParseRejectsIff | C/cjson/cJSON.c:236-243 | cJSON_Parse returns null on exactly the texts that break off so, behind any blanks. |
| JsonLiteral.Utf8DecodesIff | C/cjson/cJSON.c:163-175 | The bytes stored for a four-digit escape decode, by section 3 of RFC 3629, to its code point exactly when that is no surrogate. |
| JsonLiteral.LiteralIsRead | C/cjson/cJSON.c:139-184 | Every well-formed literal, of plain bytes, short escapes and four-digit escapes, is read to its closing quote; the bytes stored are what it denotes exactly when it has no half of a surrogate pair. |
| JsonLiteral.UnescapeLiteral | C/cjson/cJSON.c:150-181 | The second pass turns the text of the parts into their bytes, one after the other, and leaves what stands behind the quote. |
| JsonLiteral.CodeOfDigits | C/cjson/cJSON.c:164 | The code of a four-digit escape, by the places of its digits in either case. |
| JsonLiteral.BytesDenoted | C/cjson/cJSON.c:150-181 | The bytes stored are what the literal denotes, a surrogate pair denoting one character, exactly when no part of it is half of a pair. |
| JsonLiteral.NothingElseDenoted | C/cjson/cJSON.c:150-181 | Such a literal denotes no other bytes. |
| JsonLiteral.Utf8Unique | C/cjson/cJSON.c:163-175 | No bytes but those stored decode to a code point of four digits. |
| JsonLiteral.PairIsStoredAsHalves | C/cjson/cJSON.c:163-175 | The escapes of U+1F600 denote four bytes; six others are stored, which are not what the literal denotes. |
| JsonLiteral.HalfPairIsNoCharacter | C/cjson/cJSON.c:163-175 | The bytes stored for U+D800 decode to nothing. |
| CJson.Item.constructor | C/cjson/cJSON.c:69-74 | A new item is zeroed, owns nothing but itself and is in no list. |
| CJson.Item.GetArraySize | C/cjson/cJSON.c:456 | Counting along the links gives the length of the list of children, also through a reference, which shares the list of another item. |
| CJson.Item.GetArrayItem | C/cjson/cJSON.c:457 | The child at an index of that list, null behind the end, the first one for a negative index. |
| CJson.Item.AddItemToArray | C/cjson/cJSON.c:461-466 | The children are the old ones and the new item behind them; links agree both ways and ownership is kept. |
| CJson.Item.DetachItemFromArray | C/cjson/cJSON.c:471-472 | The item at the index leaves the list with everything it owns and with null links; the other children keep their order; null exactly when there is no such item. |
| CJson.Item.ReplaceItemInArray | C/cjson/cJSON.c:478-480 | The new item stands where the old one stood, and exactly what the old one owned is freed; nothing happens without an old one. |
| CJson.Item.AddItemReferenceToArray | C/cjson/cJSON.c:463-468 | A fresh node is appended that shares value, string and children with the item but owns none of them. |
| CJson.CreateReference | C/cjson/cJSON.c:463 | A reference owns itself only, has no name and is in no list. |
| CJson.Unlink | C/cjson/cJSON.c:472 | The four pointer updates of detaching leave the list without that item, links consistent both ways. |
| CJson.Exchange | C/cjson/cJSON.c:479-480 | The pointer updates of replacing leave the list with the new item in the place of the old. |
| CJson.LinkBehind | C/cjson/cJSON.c:461 | Hanging an item behind the last one gives the longer list. |
| CJson.Delete | C/cjson/cJSON.c:77-89 | Deleting a list terminates and frees each object owned by its items, each exactly once, and nothing that is only reached through a reference. |
| CJson.DeleteOne | C/cjson/cJSON.c:83-86 | One item: children unless it is a reference, strings, name and node. |
| CJsonParser.ParseString | C/cjson/cJSON.c:139-184 | Two passes: the buffer measured by the first holds what the second writes.  Whenever the text begins with a well-formed literal, the item gets its bytes as a C string, which are what the literal denotes if it has no null byte and no half of a surrogate pair. |
| CJsonParser.MeasureString | C/cjson/cJSON.c:145 | The first pass counts what its specification counts, and says when it would step over the terminator. |
| CJsonParser.FillString | C/cjson/cJSON.c:150-181 | The second pass writes the bytes of the specification, which for a well-formed literal are those of `JsonLiteral.UnescapeLiteral`, and never more than were counted. |
| CJsonParser.ParseNumber | C/cjson/cJSON.c:92-112 | A number without fraction and exponent in the range of a C int is read, and its digits are consumed. |
| CJsonParser.ParseValue | C/cjson/cJSON.c:250-262 | The item becomes a tree that denotes the value the parsing function reads, which is the one `JsonGrammar.ReadsIff` says; it owns all of it and every object allocated on the way, and the same rest is left; texts that break off are rejected. |
| CJsonParser.ParseArray | C/cjson/cJSON.c:283-308 | The same for an array: new children are linked as they are read. |
| CJsonParser.ParseObject | C/cjson/cJSON.c:362-395 | The same for an object: each child gets its name, then its value, with blanks skipped on both sides of name, colon and value. |
| CJsonParser.Parse | C/cjson/cJSON.c:236-243 | A text of the grammar (`JsonGrammar.ParseIff`) is read into a fresh tree that owns every object allocated on the way; on a text that breaks off (`JsonErrors.ParseRejectsIff`) null is returned and every object allocated on the way has been freed, and nothing else. |
| CJsonPrinter.PrintStringPtr | C/cjson/cJSON.c:187-220 | The counted buffer holds the quoted and escaped string with its terminator. |
| CJsonPrinter.CountString | C/cjson/cJSON.c:193 | The count of the first loop over the string. |
| CJsonPrinter.PrintNumber | C/cjson/cJSON.c:115-123 | Every C int fits the 21 bytes and is written in decimal. |
| CJsonPrinter.PrintArray | C/cjson/cJSON.c:311-359 | The length computed while the entries are collected is never exceeded when they are put together, terminator included. |
| CJsonPrinter.PrintObject | C/cjson/cJSON.c:398-453 | The same for an object, with tabs that depend on the depth. |
| CJsonPrinter.ComposeArray | C/cjson/cJSON.c:341-358 | Brackets, entries and separators are written into a buffer of the computed length and make the specified text. |
| CJsonPrinter.ComposeObject | C/cjson/cJSON.c:430-452 | The same for names, values, tabs and line ends. |
| CJsonPrinter.PrintValue | C/cjson/cJSON.c:265-280 | For every tree of items the text is the one of the specification, for every depth and mode; items and strings may be shared through references. |
| CJsonPrinter.OwnedShows | C/cjson/cJSON.c:265-280 | An item that owns a tree shows its value along the links that the printer follows. |
| CJsonPrinter.ReferenceShows | C/cjson/cJSON.c:463 | A reference shows the value of the item it was made from. |
| CJsonPrinter.PrintAndParse | C/cjson/cJSON.c:236-247 | Printing and parsing on the heap gives a separate tree with the same value. |
| WorkerPool.RingIsFifo | C/mongoose/mongoose.c:4842-4942 | In every reachable state 0 <= head - tail <= 20, head <= 40, tail <= 20 when the mutex is free, and what was enqueued is what was dequeued, in order, followed by what is in the ring. |
| WorkerPool.EverySocketOnce | C/mongoose/mongoose.c:4842-4869 | No socket is dequeued twice or held by two workers, and a worker that serves has a socket that it dequeued itself. |
| WorkerPool.NothingDropped | C/mongoose/mongoose.c:4924-4942 | While the server runs, every socket accepted has been enqueued or is carried by the master, and the master finds room whenever it enqueues: none is dropped. |
| WorkerPool.NoLostWakeups | C/mongoose/mongoose.c:4842-4942 | While the server runs and the mutex is free: if a worker sleeps, the queue is no longer than the number of signalled workers, and if the master sleeps, the queue is full. |
| WorkerPool.QueueProgress | C/mongoose/mongoose.c:4842-4869 | With the mutex free and a socket in the queue of a running server: some worker can by its own steps alone dequeue one exactly when not all workers are leaving. |
| WorkerPool.HolderCanStep | C/mongoose/mongoose.c:4842-5034 | Whoever holds the mutex can go on; nobody blocks while holding it. |
| WorkerPool.ShutdownIsSafe | C/mongoose/mongoose.c:4912-4917 | num_threads is the number of workers that have not run their exit block; condition variables are destroyed, stop_flag becomes 2 and the context is freed only when every worker is gone. |
| WorkerPool.GoneStaysStill | C/mongoose/mongoose.c:5026-5047 | Once every worker is gone none moves again, and after the master only the caller of mg_stop does. |
| WorkerShutdown.StuckIffHung | C/mongoose/mongoose.c:4842-5047 | In every reachable state with stop_flag 1: no thread can step, but for spurious wake-ups, exactly when the master waits for room and every worker is gone, or it waits for workers to leave and those not gone all sleep. |
| WorkerShutdown.BroadcastReachesAll | C/mongoose/mongoose.c:5023-5024 | If no worker is about to fall asleep when the broadcast is made, none ever sleeps again. |
| WorkerShutdown.BroadcastMissed | C/mongoose/mongoose.c:5023-5033 | If one is, then without spurious wake-ups it never leaves and the server never reports that it has stopped. |
| WorkerShutdown.MasterWaitsNoMore | C/mongoose/mongoose.c:4927-4931 | A master that is not waiting for room, or about to, when the server is told to stop never waits for room again. |
| WorkerShutdown.ShutdownCanHang | C/mongoose/mongoose.c:5020-5082 | A run that ends with the server stopping, one worker asleep for good and nobody able to step: the broadcast came before the worker fell asleep. |
| WorkerShutdown.ShutdownCanHangWhileAccepting | C/mongoose/mongoose.c:4924-4942 | A run that ends with the master asleep in produce_socket on a full ring and the only worker gone: the broadcast is never made. |
| WorkerShutdown.MoreInv | C/mongoose/mongoose.c:4842-5047 | Every state of every run has, besides, the two invariants below. |
| WorkerShutdown.WaitKept | C/mongoose/mongoose.c:5026-5033 | Every step keeps: the master waits for workers to leave only while one has not left or is about to report that it was the last. |
| WorkerShutdown.HelpKept | C/mongoose/mongoose.c:4924-4942 | Every step keeps: while the master waits for room and a worker sleeps, another is on its way to make room or has made it and is about to signal. |
| WorkerPool.RunInv | C/mongoose/mongoose.c:4842-5082 | Every state of every run, with any number of workers, has all the invariants below. |
| WorkerPool.MutexKept | C/mongoose/mongoose.c:4842-4942 | Every step keeps mutual exclusion: exactly the owner stands at a place that needs the mutex. |
| WorkerPool.StopKept | C/mongoose/mongoose.c:5075-5082 | stop_flag only moves from 0 to 1 to 2. |
| WorkerPool.FifoKept | C/mongoose/mongoose.c:4852-4863 | Every step keeps the ring a queue, index wrap-around included. |
| WorkerPool.ArrivalKept | C/mongoose/mongoose.c:4924-4942 | Every step keeps the account of accepted and enqueued sockets, and that the master enqueues only with room. |
| WorkerPool.GotKept | C/mongoose/mongoose.c:4842-4869 | Every step keeps: who came away without a socket did so because the server is stopping. |
| WorkerPool.WakeKept | C/mongoose/mongoose.c:4924-4942 | Every step keeps: as long as a worker sleeps, each queued socket has a worker on its way or a signal about to be sent. |
| WorkerPool.RoomKept | C/mongoose/mongoose.c:4927-4931 | Every step keeps: the master sleeps only while the ring is full or a worker that made room is about to signal. |
| WorkerPool.ThreadsKept | C/mongoose/mongoose.c:4912-4917 | Every step keeps the count of threads right. |
| HttpFraming.GetRequestLen | C/mongoose/mongoose.c:1788-1807 | The loop computes the scan function. |
| HttpFraming.ScanFindsTheEnd | C/mongoose/mongoose.c:1788-1807 | A positive length is found exactly when an empty line ends there and no bad character or empty line comes before. |
| HttpFraming.ScanRefuses | C/mongoose/mongoose.c:1793-1798 | The head is malformed exactly when a bad character comes before every empty line. |
| HttpFraming.LengthOfHead | C/mongoose/mongoose.c:1788-1807 | The length is that of the shortest prefix that ends with an empty line, lines ending with LF or CRLF, when it has no control character in it. |
| HttpFraming.RefusedHead | C/mongoose/mongoose.c:1793-1798 | A head is refused exactly when a control character, not the last byte, comes before such an end. |
| HttpFraming.ScanStable | C/mongoose/mongoose.c:1788-1807 | What the scan finds in a prefix it finds in every longer buffer. |
| HttpFraming.Connection.Pull | C/mongoose/mongoose.c:1473-1490 | What is read are the next bytes of the stream, as few as the peer likes; once the server is being stopped an error is reported whatever was read. |
| HttpFraming.Connection.ReadRequest | C/mongoose/mongoose.c:2877-2889 | The length found is that of the first head of the whole remaining stream, however it arrives in pieces; nothing is read when the head is there already, and -1 means a bad head, a full buffer or nothing more to read. |
| HttpFraming.Connection.ParseHead | C/mongoose/mongoose.c:2842-2870 | The second scan, over the whole buffer with stale bytes, gives the same length; writing into the head leaves the body bytes alone. |
| HttpFraming.Connection.GetReq | C/mongoose/mongoose.c:4733-4762 | A request starts with nothing consumed, the content length of its own head and a head that is accepted; there is none only if the stream gives none or the head is refused. |
| HttpFraming.Connection.MgRead | C/mongoose/mongoose.c:1492-1535 | Each call returns exactly the next bytes of the body and never goes beyond it, fewer than asked for only at the end of the body or of the input; the results add up to the part of the body consumed. |
| HttpFraming.Connection.Discard | C/mongoose/mongoose.c:4823-4832 | 0 <= data_len <= buf_size stays true, and the next request begins behind this one's body exactly when that was buffered altogether or read to its end. |
| HttpFraming.Connection.Process | C/mongoose/mongoose.c:4786-4839 | Over a whole connection and any handler: every request served is an accepted head of the stream at its place, with a body that is the stream's.  After each request but the last the connection is kept: its head and its handler want it so, its length is good and the server is not being stopped.  Serving ends behind the last for one of these reasons, for lack of a request or at a refused head. |
| HttpFraming.RequestsAreCutExactly | C/mongoose/mongoose.c:4823-4838 | The requests begin where the stream alone says, up to place i, exactly when every request before i was drained. |
| HttpFraming.UnreadBody | C/mongoose/mongoose.c:4823-4832 | A connection whose buffer holds a head and nothing of its body of three bytes: when none of it is read, the next request is taken to begin with the body. |
| HttpFraming.SameRequestsForAnyPieces | C/mongoose/mongoose.c:2877-2889 | Two connections that get the same bytes in different pieces serve the same requests. |
| GlobMatcher.MatchPrefix | C/mongoose/mongoose.c:846-883 | The result is that of the first alternative that describes a non-empty prefix, else of the last one; for an alternative, the longest described prefix or -1, where signs describe what the three lemmas below say. |
| GlobMatcher.SingleStar | C/mongoose/mongoose.c:864-877 | A single star describes any characters but a slash. |
| GlobMatcher.DoubleStar | C/mongoose/mongoose.c:864-877 | Two stars describe any characters. |
| GlobMatcher.OtherSigns | C/mongoose/mongoose.c:858-880 | A question mark describes one character, a dollar sign the end of the string, and any other character itself. |
| GlobMatcher.AlternativesBetweenBars | C/mongoose/mongoose.c:850-854 | The alternatives are what stands between the bars. |
| GlobMatcher.MatchAlternative | C/mongoose/mongoose.c:856-882 | For a pattern without bars: the length of the longest prefix that the pattern describes, -1 exactly when there is none. |
| GlobMatcher.MatchStar | C/mongoose/mongoose.c:864-877 | The first success of the backtracking loop is the longest match. |
| GlobMatcher.GreedyStar | C/mongoose/mongoose.c:874-877 | Why: the longest cover of the star that leaves a match leaves the match that ends furthest. |
| GlobMatcher.Crossing | C/mongoose/mongoose.c:856-882 | Two matches whose ends are in the opposite order of their starts can exchange ends. |
| GlobMatcher.PositiveIffNonEmpty | C/mongoose/mongoose.c:850-854 | The result is positive exactly when some alternative describes a non-empty prefix. |
| GlobMatcher.VerdictUnique | C/mongoose/mongoose.c:846-883 | The contract of the matcher determines its result. |
| Digests.Md5.Update | C/mongoose/mongoose.c:2099-2133 | The context holds the state behind the full blocks of all bytes so far, the rest in its buffer, and 8 times their number modulo 2^64. |
| Digests.Md5.Count | C/mongoose/mongoose.c:2102-2107 | The two words count the bits of the longer message modulo 2^64, and the low one tells where in the block the data goes. |
| Digests.Md5.Final | C/mongoose/mongoose.c:2135-2161 | The digest is that of the message padded as in sections 3.1 and 3.2 of RFC 1321, in one block or two. |
| Digests.MgMd5 | C/mongoose/mongoose.c:2177-2193 | The 33 bytes are the digest of the concatenation of all strings as 32 hexadecimal digits, and a terminator. |
| Digests.DigestOfParts | C/mongoose/mongoose.c:2177-2191 | The digest of several strings is the digest of their concatenation. |
| Digests.ConcatInOrder | C/mongoose/mongoose.c:2186-2188 | The strings follow each other in their order. |
| Digests.Bin2Str | C/mongoose/mongoose.c:2166-2174 | Two digits a byte, high one first, and a terminator, and nothing behind it. |
| Digests.HexOfByte | C/mongoose/mongoose.c:2166-2174 | The two digits of a byte, the high one first, in lower case, have its value. |
| Digests.HexTellsApart | C/mongoose/mongoose.c:2166-2174 | The digits are equal exactly when the bytes are. |
| Digests.Sha1.Update | C/mongoose/mongoose.c:3682-3701 | The same as for MD5, so that it does not matter how the input is cut. |
| Digests.Sha1.Pad | C/mongoose/mongoose.c:3711-3716 | The loop that pads byte by byte terminates and adds the mark and the fewest zero bytes. |
| Digests.Sha1.Final | C/mongoose/mongoose.c:3703-3724 | The digest is that of the message padded as in section 4 of RFC 3174. |
| Digests.Sha1.LengthBytes | C/mongoose/mongoose.c:3707-3710 | The eight bytes are the bit length, high byte first. |
| Digests.CarryIsRight | C/mongoose/mongoose.c:2102-2105 | Two 32-bit words with a carry count modulo 2^64. |
| Digests.GuardIsRightIff | C/mongoose/mongoose.c:3691 | The 32-bit guard of SHA1Update is right exactly when its sum does not wrap. |
| Digests.GuardWraps | C/mongoose/mongoose.c:3691 | With one byte buffered and 2^32 - 1 to come the sum is 0 and the guard is wrong. |
| Digests.PadOneBlock | C/mongoose/mongoose.c:2149-2157 | Padding that fits the block gives the digest of the padded message. |
| Digests.PadTwoBlocks | C/mongoose/mongoose.c:2144-2157 | Padding that spills into a second block does, too. |
| Digests.LengthStored | C/mongoose/mongoose.c:2154-2155 | The two words in a row are the bit length, low byte first; `Digests.LittleEndianByte` says what the bytes are. |
| Digests.LittleEndianByte | C/mongoose/mongoose.c:2154-2155 | The i-th byte is the digit to the base 256 at the i-th place from the low end. |
| Digests.BigEndianByte | C/mongoose/mongoose.c:3707-3710 | The same from the high end. |
| Digests.PaddedBytes | C/mongoose/mongoose.c:2135-2161 | What is digested, byte by byte: the message, 0x80, the fewest zero bytes that fill up the block, and the number of bits modulo 2^64 in the order of bytes of MD5 or of SHA-1. |
| UrlCodec.DecodeOfEncode | C/mongoose/mongoose.c:1627-1650 | Decoding an encoded string gives it back, in plain and in form mode, whatever stands behind it. |
| UrlCodec.DecodePieces | C/mongoose/mongoose.c:1634-1645 | Every text is decoded piece by piece: an escape with digits of either case is its byte, a plus sign is a blank in a form only, and any other sign is itself, also a percent sign without two digits. |
| UrlCodec.EveryText | C/mongoose/mongoose.c:1634-1645 | Every text can be cut up into such pieces. |
| UrlCodec.UrlEncode | C/mongoose/mongoose.c:2487-2505 | What is written, terminator included, stays in the buffer and is the specified text. |
| UrlCodec.EncodesIffRoom | C/mongoose/mongoose.c:2492-2502 | That text is the encoding exactly when the encoding fits. |
| UrlCodec.WhatIsEscaped | C/mongoose/mongoose.c:2488-2501 | Letters, digits and nine signs are left alone; every other byte becomes a percent sign and its two digits in lower case. |
| UrlCodec.NoRoomForEscape | C/mongoose/mongoose.c:2492-2502 | A slash in room for two bytes leaves the first byte as it was. |
| UrlCodec.ThreeTimesIsEnough | C/mongoose/mongoose.c:2487-2505 | Three times the length and a byte for the terminator is room enough. |
| UrlCodec.UrlDecode | C/mongoose/mongoose.c:1627-1650 | The decoded bytes or as many as fit are written and terminated, also when source and destination are the same buffer; -1 exactly when they do not fit.  The source may end with its memory unless a percent sign among its last two bytes makes the code look further. |
| UrlCodec.MgGetVar | C/mongoose/mongoose.c:1652-1697 | The value of the variable is decoded to the destination; -1 without the variable, -2 when it does not fit. |
| UrlCodec.FirstVariable | C/mongoose/mongoose.c:1671-1673 | The variable found stands at the first place that is the start or behind an ampersand, with its name, case ignored, and an equals sign. |
| UrlCodec.LookupMeans | C/mongoose/mongoose.c:1675-1687 | Its value ends at the next ampersand or with the data and is decoded as a form. |
| UrlCodec.GetFormVar | C/mongoose/mongoose.c:1652-1697 | The same for a buffer filled exactly by a form of encoded pairs: the value of the first pair with the name, decoded. |
| UrlCodec.FormIsReadable | C/mongoose/mongoose.c:1627-1650 | Such a form can be decoded with no byte behind it. |
| UrlCodec.ReadableValue | C/mongoose/mongoose.c:1652-1697 | A value can be decoded within the memory in which the whole data can. |
| UrlCodec.LookupInForm | C/mongoose/mongoose.c:1652-1697 | In a form of encoded pairs the value found is that of the first pair with the name, case ignored. |
| UrlCodec.FoundByName | C/mongoose/mongoose.c:1671-1672 | A pair is found by its own name and no other. |
| UrlCodec.StrNCaseCmp | C/mongoose/mongoose.c:661-670 | Zero exactly when the two texts agree up to case. |
| UrlCodec.EqualUpToCase | C/mongoose/mongoose.c:657-659 | Two characters agree when they are the same or the two cases of a letter. |
| PathNormaliser.RemoveDoubleDotsAndDoubleSlashes | C/mongoose/mongoose.c:1854-1873 | The two-pointer loop leaves the normal form of the path, terminated, in the buffer; what that is the next lemma says. |
| PathNormaliser.JunkIsDropped | C/mongoose/mongoose.c:1857-1870 | Behind a separator slashes, backslashes and pairs of dots are dropped as far as they go, and everything else is kept, a single dot too. |
| PathNormaliser.EveryPath | C/mongoose/mongoose.c:1857-1870 | Every path has no separator or is cut up as that lemma has it. |
| PathNormaliser.ResultIsClean | C/mongoose/mongoose.c:1852-1873 | In the normal form no separator is followed by a separator or by two dots. |
| PathNormaliser.UnchangedIffClean | C/mongoose/mongoose.c:1852-1873 | Exactly the paths like that are left alone. |
| PathNormaliser.Idempotent | C/mongoose/mongoose.c:1852-1873 | Normalising twice is normalising once. |
| PathNormaliser.OnlyLeavesOut | C/mongoose/mongoose.c:1854-1873 | The result comes from the path by leaving out separators and dots, nothing else. |
| Directives.ShowImage | C/apophnia.c:526-675 | The file found exists and is named after what is left of the name; that and the directives in the order they are carried out make up the requested name. |
| Directives.FindFile | C/apophnia.c:531-618 | The buffers and the stack of clauses end up as the search function says, for every file system, without overflow of either. |
| Directives.StripClauses | C/apophnia.c:566-617 | The inner loop terminates and computes that function. |
| Directives.Replay | C/apophnia.c:654-675 | The stack is read from its top to its bottom. |
| DirectiveSearch.HuntConserves | C/apophnia.c:566-579 | Base and clauses, joined by underscores, are the stem of the name. |
| Directives.RejoinedInOrder | C/apophnia.c:654-675 | Read from the top, the stack gives the clauses from left to right. |
| DirectiveSearch.FoundAtTheBase | C/apophnia.c:574-613 | A file found exists and stands at the final base. |
| DirectiveSearch.ClausesAreUnderscores | C/apophnia.c:566-575 | The stack never holds more clauses than the name has underscores. |
| DirectiveSearch.OriginalIsFoundIff | C/apophnia.c:531-618 | In every file system without the file asked for and with no hit at the cuts before the last: the original is served with the first extension among those tried at the last cut that it has, and not at all exactly when it has none of them. |
| DirectiveSearch.FirstHitDecides | C/apophnia.c:566-617 | In every file system the cuts without a hit only change the extension: the result is that of the first cut with a hit. |
| DirectiveSearch.EarlierHitDecides | C/apophnia.c:566-617 | At a hit before the last cut: the extension that stands there is served at once, a fallback is forgotten and the search goes on with its extension. |
| DirectiveSearch.NearestIsForgotten | C/apophnia.c:589-613 | A file one cut down, there as a fallback only, is not served when there is one more cut to make. |
| DirectiveSearch.TriesByCuts | C/apophnia.c:142-154 | Which extensions are still tried at the second cut and later, for each requested extension. |
| DirectiveSearch.TriesAtFirstCut | C/apophnia.c:142-154 | At the first cut the extension itself is tried and then, in this order, its row of the table. |
| DirectiveSearch.NoneExistsBefore | C/apophnia.c:599-612 | Of the fallbacks that are there the first in their order is taken. |
| DirectiveSearch.NoExtension | C/apophnia.c:556-565 | A name without a dot is served only as it stands. |
| DirectiveSearch.ChainingExampleIsNotServed | C/apophnia.c:589-613 | The documented chain of three directives on a bmp original, requested as png, is not served. |
| OffsetDirective.AtoiPtr | C/apophnia.c:229-250 | The signed number at the pointer is read and the pointer moves behind it; None exactly when the digits do not fit a C int. |
| OffsetDirective.ItoaInPlace | C/apophnia.c:252-267 | The digits of every C int fit the 12 bytes and stand at their end. |
| OffsetDirective.DecimalOfItoa | C/apophnia.c:252-267 | The digits written denote the number, none for zero. |
| OffsetDirective.DecimalByPlaces | C/apophnia.c:240-247 | Digits are read as the number they stand for by their places. |
| OffsetDirective.ImageOffset | C/apophnia.c:413-431 | The crop asked for is the one the directive denotes, none without the x; a number that overflows is reported. |
| OffsetDirective.OffsetMeans | C/apophnia.c:413-431 | Height, x, width, and then the way down and the way across, each behind its sign letter, are read off as these four numbers. |
| OffsetDirective.OffsetOfRenderedIff | C/apophnia.c:413-431 | Reading a rendered directive gives back its four numbers exactly when the width is not zero or both offsets are. |
| OffsetDirective.ZeroWidthShifts | C/apophnia.c:413-431 | With width 0, 5 down and 7 across, 5 is read as the width and 7 as the way down. |
| ChatRing.Chat.NewMessage | C/mongoose/examples/chat.c:151-157 | The slot of the next number gets that number and the time. |
| ChatRing.Chat.Post | C/mongoose/examples/chat.c:178-185 | Slot k mod 5 holds message k for the last five messages of the log, which has grown by this one. |
| ChatRing.Chat.MessagesFrom | C/mongoose/examples/chat.c:82-112 | A query shows the messages from the cursor on, or the last five of them, in order, for every cursor that keeps the loop in the ring. |
| ChatRing.Chat.StaysInRingIff | C/mongoose/examples/chat.c:82-112 | The loop of a query keeps to the slots of the ring exactly when the cursor is not negative, five messages have been posted, or none has and the cursor is -5 or less. |
| ChatRing.NegativeSlot | C/mongoose/examples/chat.c:82-112 | With one message and cursor -3 the loop would read slot -3. |
| ChatRing.CursorAtTheEnd | C/mongoose/examples/chat.c:82-112 | One poll brings the cursor of the client to the end of the log. |
| ChatRing.NeverRepeats | C/mongoose/examples/chat.c:82-112 | What successive polls bring are messages of the log, in its order, each at most once. |
| ChatRing.MissesNothingIff | C/mongoose/examples/chat.c:82-112 | The polls bring everything exactly when at most five messages come between one and the next. |
| ChatRing.BurstLosesTheFirst | C/mongoose/examples/chat.c:82-112 | Of six messages that come at once the first is never shown. |

## Left out

- CJsonParser.ParseNumber: a number with fraction or exponent, or beyond a C int, is Undefined; floating point is not modelled, and neither is the printing of such numbers, which rounds to the digits that `sprintf` gives.
- Malformed `\u` escapes and texts that make the parser step over the terminator: undefined in the specification, as in C.  These, and the numbers above, are the texts that are neither read nor rejected.
- Allocation failure everywhere.
- CJsonPrinter.PrintValue: requires that no string or name is null; the printer writes nothing for a null string, which is not JSON.
- The printer frees its temporary texts; the model does not track them.  Lengths are unbounded integers where C has `int`.
- Object operations by name (`cJSON_AddItemToObject`, `cJSON_DetachItemFromObject` and their kin) and the constructors of arrays: they add a name search to the list operations.
- Worker start-up inside `mg_start`, where a failing thread creation changes num_threads without the mutex: the model begins when all workers are counted.  Memory is taken to be sequentially consistent.
- WorkerPool.NoLostWakeups: stated for states in which the mutex is free; inside a critical section the invariant that `WorkerPool.WakeKept` keeps also counts the worker or the signal that is on its way.
- Sockets still queued at the stop may be dropped.
- The continuation of `process_new_connection` after a request that cannot be read or parsed, and `int` overflow of request length plus content length.
- HttpFraming.Connection.ParseHead: parsing of the request line and the headers is reduced to null bytes written into the head, and to a verdict, a content length and a wish to go on that are any functions of the head.  What a handler does to close the connection is one flag, set freely.
- Handlers that change the content length of a request themselves, as the web socket code does.
- The MD5 and SHA-1 compression functions and initial states are parameters; the machine is little-endian, so that `byteReverse` does nothing; the clearing of the contexts is not modelled.
- UrlCodec.UrlDecode: requires exactly that the code reads inside the memory of the source: a byte behind it, or two, only where a percent sign among its last two bytes makes the code look at them; UrlCodec.MgGetVar requires this of the value it finds.
- GlobMatcher.MatchPrefix: requires that the byte behind the pattern is not a star, because the C code reads it.
- Directives.FindFile: requires at most 16 cuts, the size of the stack; names of `PATH_MAX` bytes or more overflow the C buffers and are excluded.
- The resize and quality directives, and everything the image library does.
- OffsetDirective.AtoiPtr: a number beyond a C int, on which C gives no guarantee, is None, and `OffsetDirective.ImageOffset` then says no more.
- ChatRing.Chat.MessagesFrom: requires exactly that the loop stays in the ring.  The text form of the messages, and the buffer it may outgrow, are not modelled, nor are sessions.
- Sockets, TLS, CGI, file serving, directory listings, configuration and logging.

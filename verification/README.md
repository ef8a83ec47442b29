# A verified model of the longlp HTTP server

This Dafny project models a small epoll HTTP/1.1 server written in C++ and proves
properties of the model. `dafny verify dfyconfig.toml` checks all of it.

## What is modelled

**HTTP text.** `Strings.dfy` and `HttpUtils.dfy` hold the first-occurrence search,
`Split`, `Join`, `Trim`, `ToUpper`, `Format` and the tables; `Words.dfy` says by bytes what the
last two accept. `Framing.dfy` cuts a byte stream at blank lines. `Header.dfy`, `Request.dfy` and `Response.dfy` parse and print;
`RequestRoundTrip.dfy` writes requests as a client does and reads them back.
`Client.dfy` is a client that reads replies off one stream (sections 6.3 of RFC 9112,
8.6 and 9.3.2 of RFC 9110); `HeadReplies.dfy` follows what it makes of a body sent after a
HEAD.

**The LRU cache.** `Lru.dfy` is the cache as a sequence of entries, oldest use first,
with its whole-run properties; `LruInclusion.dfy` compares the lists of two capacities and
`LruHits.dfy` their hits; `LruRecency.dfy` says what is held. `Cache.dfy`
is the pointer structure: nodes with `prev` and `next`, two sentinels, a map and a
byte counter in 64-bit wrap-around arithmetic, each method proved to be its operation
on the sequence.

**The server.** `Connection.dfy` has the buffers and the `Receive` and `Send` loops;
the kernel's answers are given as sequences. `Replies.dfy` says what one frame is
answered, without a cache, and `Answers.dfy` what that means for the client.
`Session.dfy` follows one connection through its life.
`Server.dfy` is the request handler with cache, buffers and socket, proved to send what
`Session.dfy` says. `Serving.dfy` runs any sequence of handler calls on many connections
that share one cache.

**Threads.** `ThreadPool.dfy` with `ThreadPoolRuns.dfy` and `ThreadPoolService.dfy`, `Ownership.dfy`
with `OwnershipRuns.dfy`, and `Logger.dfy` are step relations in which every sequence of
actions is a run: a step that is not enabled changes nothing.

A `char` stands for a byte; no statement depends on the number of byte values.
`std::string::data()` is modelled with its cut at the first NUL byte. The private
methods `Unlink`, `Forget`, `Take`, `Stamp`, `MoveToTail`, `EvictFirst`, `MakeRoom` and
`Store` of the model's `Cache` are pieces of `TryLoad` and `TryInsert`.

## Where the code and its documentation differ

The model follows the code.

- `Trim` is documented to remove both ends (`src/http/http_utils.h:38-40`) but keeps
  what follows the kept text; `HttpUtils.TrimMeetsItsDocumentationIff` says exactly when
  the two agree, and `HttpUtils.TrimKeepsTrailingDelimiter` gives an input on which they do not.
- `Split` drops one empty piece after a final delimiter; `HttpUtils.SplitThenJoinIsIdentityIff`
  and `HttpUtils.JoinThenSplitIff` say exactly when it loses nothing.
- A larger cache does not always do better than a smaller one: `LruHits.LargerCacheLosesAHit` has
  a request that only the smaller cache answers from memory, and `LruHits.HitsAreIncludedIff` says
  for which file sizes the hits of the smaller cache are always hits of the larger.
- The thread pool's destructor sets `stop_` without the mutex and can wait for ever
  (`ThreadPoolRuns.DestructorCanHang`). `ThreadPoolRuns.DestructorCanAlwaysReturnIff` says exactly when it
  is sure to be able to return, and then `ThreadPoolRuns.DestructorReturnsUnlessWakeupLost` bounds
  the steps to its return.
- A HEAD answered by a CGI program gets a body. A client reads no body after a HEAD, so the output
  stays in its stream and spoils what it reads next: `HeadReplies.OutputSpoilsNextReply`, on the input of
  `HeadReplies.HeadOfProgramBreaksTheStream`. `Session.ClientReadsTheRepliesIff` shows that no other
  request does this.
- A log message can stay queued when the writer thread ends (`Logger.QueueMayBeLeftAtExit`);
  `Logger.FileAtExit` says that exactly the messages pushed after the writer last released the mutex do.
- Persistence is off unless a header asks for it, the opposite of section 9.3 of RFC 9112.

## Assumptions about the outside

Files are regular and do not change. The i-th request of a connection gets an arbitrary
but fixed byte string from a CGI program. An accepted descriptor is not already open,
closing a descriptor takes it out of every interest list, and one poll reports a
registration at most once. The log writer's wait can return at any time. `epoll`, `recv`, `send` and the clock are sequences, sets or
parameters.

## Model

| member | source | states |
|---|---|---|
| HttpUtils.Split | src/http/http_utils.cc:92-109 | the scanning loop yields the recursive tokens: text before the first delimiter, then the tokens of the rest |
| HttpUtils.Join | src/http/http_utils.cc:111-126 | the streaming loop builds the tokens separated by the delimiter |
| HttpUtils.TokensAreFree | src/http/http_utils.cc:100-107 | no token contains the delimiter |
| HttpUtils.SplitThenJoin | src/http/http_utils.cc:92-126 | joining the tokens gives the text back, short of one trailing delimiter when the scan ends at the end |
| HttpUtils.SplitThenJoinIsIdentityIff | src/http/http_utils.cc:92-126 | the text comes back whole exactly when the scan does not end at its end |
| HttpUtils.ScanEndsIffSuffix | src/http/http_utils.cc:100-107 | for a delimiter that cannot overlap itself, the scan ends at the end exactly when the text ends with it |
| HttpUtils.JoinThenSplitIff | src/http/http_utils.cc:92-126 | splitting joined tokens recovers them exactly when none contains the delimiter and the last is not empty |
| HttpUtils.SplitOfTerminated | src/http/http_utils.cc:92-109 | delimiter-terminated lines, empty ones included, are read back exactly |
| HttpUtils.DelimitersAreBorderless | src/http/constants.h:16-21 | CRLF, space and colon cannot overlap themselves |
| HttpUtils.TrimMeetsItsDocumentationIff | src/http/http_utils.cc:128-136 | the code trims both ends exactly when no NUL lies in the kept text and nothing, or a NUL, follows it |
| HttpUtils.TrimKeepsTrailingDelimiter | src/http/http_utils.cc:128-136 | an input on which the documented trim fails |
| HttpUtils.ToUpper | src/http/http_utils.cc:138-145 | the in-place loop gives the upper-case text up to the first NUL |
| Words.FormatIff | src/http/http_utils.cc:128-149 | a text formats to a word exactly when it is spaces, the word in letters of either case, and then ends or has a NUL |
| Words.FormatDropsLeadingSpaces | src/http/http_utils.cc:147-149 | any number of spaces before a NUL-free text makes no difference |
| Words.MethodIff | src/http/http_utils.cc:21-35 | the texts that name GET and HEAD |
| Words.MimeIff | src/http/http_utils.cc:54-90 | which extensions, spelled how, give which media type |
| Framing.FrameIffLines | src/http/request.cc:53-66 | a text ends at its first blank line exactly when it splits into two or more lines, the last empty, none empty strictly between |
| Framing.CuttingIsLossless | src/core/buffer.cc:49-64 | popped frames and leftover concatenate to the bytes received |
| Framing.FramesAreFrames | src/core/buffer.cc:49-64 | every popped piece ends at its own first blank line |
| Framing.FramesAreRecovered | src/core/buffer.cc:49-64 | frames followed by any bytes are popped back one by one, then the frames of the bytes |
| Framing.CuttingIsUnique | src/core/buffer.cc:49-64 | there is one way to write a stream as frames and a rest without a blank line |
| Framing.ChunkingDoesNotMatter | src/core/connection.cc:81-118 | however bytes are chunked and popped in between, the same frames come out and the same bytes stay |
| Connections.Buffer.FindAndPopTill | src/core/buffer.cc:49-64 | cuts off the text up to and including the first target, or changes nothing when there is none |
| Connections.Connection.Receive | src/core/connection.cc:81-118 | the loop appends what the answers bring and reports whether the client is gone |
| Connections.ReceivesUpToFirstStop | src/core/connection.cc:87-117 | exactly what arrived before the first stopping answer is read; it returns exactly when there is one, and exit means closed or failed |
| Connections.Connection.Send | src/core/connection.cc:120-148 | the bytes put on the socket, the outcome and the buffer after any sequence of partial, refused and fatal answers |
| Connections.DeliveredIff | src/core/connection.cc:120-140 | everything is sent exactly when enough is taken before a fatal answer |
| Connections.SendEnds | src/core/connection.cc:120-140 | the bytes sent are those offered before the first fatal answer, as far as there are any; dropped exactly when a fatal answer comes before enough was offered, still trying exactly when neither came |
| Connections.SendLeaves | src/core/connection.cc:120-140 | the next send starts after the fatal answer, or after the fewest answers that take all bytes |
| Connections.InOrderWithoutGaps | src/core/connection.cc:64-70 | over many Write/Send rounds without a fatal answer the socket carries a prefix of the writes, and all of them once every round returned |
| Connections.SendsInPieces | src/core/connection.cc:120-148 | whatever the kernel answers, a start of each text goes out, in order; only a fatal answer or an unfinished round cuts one |
| Headers.Parse | src/http/header.cc:18-28 | split-and-join parsing means: first colon separates, must not be last, one final colon is dropped |
| Headers.ValidIffSeparated | src/http/header.cc:18-24 | a line is a header exactly when a colon comes before its last byte; the key is what precedes the first colon |
| Headers.PrintOfParseIff | src/http/header.cc:18-37 | printing a parsed line gives line and CRLF exactly when it does not end with a colon |
| Headers.ParseOfPrintIff | src/http/header.cc:18-37 | key and value survive exactly when the key has no colon and the value is neither empty nor colon-final |
| Requests.Request.Deserialize | src/http/request.cc:50-82 | the constructor sets every field, also on each refusal, to what the text means |
| Requests.Request.ParseRequestLine | src/http/request.cc:84-110 | method, version, routed target or the reason for refusing the line |
| Requests.Request.ScanHeader | src/http/request.cc:112-122 | only a header whose key and value spell CONNECTION and KEEP-ALIVE clears the close flag |
| Requests.ValidIff | src/http/request.cc:50-82 | valid exactly when the text is one frame, its first line is three words spelling GET or HEAD, a target and HTTP/1.1, and every inner line is a header |
| Requests.ValidRequestSays | src/http/request.cc:84-110 | method and target are the first two words of the first line; exactly a target that is empty or ends with a slash gets the default route |
| Requests.ValidRequestIsSelfDelimiting | src/http/request.cc:50-82 | the first blank line of a valid request is its last four bytes |
| Requests.ValidRequestsAreRecovered | src/http/request.cc:50-82 | any valid requests followed by any bytes are popped back exactly |
| Requests.FrameIsRefusedForALineOnly | src/http/request.cc:53-80 | a popped frame is never refused for its framing, and only non-empty lines reach the header parser |
| Requests.KeptIffSomeHeaderAsks | src/http/request.cc:72-81 | a valid request is kept exactly when some header line, wherever it stands, spells the two words after any spaces |
| RequestRoundTrip.ReadOfWrite | src/http/request.cc:50-122 | every request a client writes is read back with its method, routed target, headers and close flag |
| Decimal.ParseOfPrint | src/http/response.cc:57 | a printed length reads back as the number |
| Responses.Response.constructor | src/http/response.cc:40-70 | status line and the standard headers for an existing, missing or absent resource |
| Responses.Response.Serialize | src/http/response.cc:72-82 | appends status line, header lines and blank line to the buffer |
| Responses.Response.ChangeHeader | src/http/response.cc:84-94 | the first header with the key changes, and the result says whether there was one |
| Responses.ChangedAt | src/http/response.cc:84-94 | exactly the first header with the key gets the new value |
| Client.HeadIsFrame | src/http/response.cc:72-82 | a printed head is one frame whose lines are the status line and the header lines |
| Client.ReadAllBack | src/http/response.cc:72-82 | a stream of replies whose bodies are as announced is read back reply by reply |
| Client.ReadsIffBytes | src/http/response.cc:72-82 | a client reads given announced replies and is left with given bytes exactly when the stream is those replies' bytes, then those bytes |
| Client.NextStatusLineIsSpoiled | demo/http-server/http_server.cc:81-88 | a body left in the stream, without a line break, is read as the start of the next reply's status line |
| Replies.ReplyIsStandard | demo/http-server/http_server.cc:29-90 | every reply has a known status, Server, Connection and Content-Length headers; Connection says Close exactly when the reply finishes |
| Replies.BodyIsAnnounced | demo/http-server/http_server.cc:41-89 | the body has the announced length, and is empty for a HEAD on a static path |
| Replies.ReplyIsAnnounced | demo/http-server/http_server.cc:81-88 | a client can frame the reply exactly when the request is not a HEAD on a CGI path whose program exists and prints something |
| Replies.ProgramIff | src/http/cgi_runner.cc:66-78 | the program of a path is its part up to the first separator after the first mention of the CGI folder |
| Replies.StatusIff | demo/http-server/http_server.cc:29-141 | the 400 line exactly for invalid requests, the 404 line exactly for valid ones whose file or program is missing, the 200 line otherwise |
| Answers.BodyIsOwed | demo/http-server/http_server.cc:29-90 | every reply's body: the file for a GET, nothing for a HEAD of a file, the program's output on a CGI path, nothing for an error |
| Answers.ClientGetsTheBodies | demo/http-server/http_server.cc:29-155 | over a whole connection, as long as no earlier HEAD got a body, the client has read each reply with the body it is owed and stands before the next |
| Answers.GoesOnIff | src/http/response.cc:25-33 | a reply leaves the connection open exactly when the request is valid, its file or program exists and some header line asks |
| Answers.ClosedIff | demo/http-server/http_server.cc:113-154 | the connection is deleted exactly when some frame of its stream fails one of these, and the first that does is the last answered |
| Answers.FileHeaders | src/http/response.cc:53-69 | a file's reply gives its size and, exactly when its path has a dot, the type of the text after the last one |
| Answers.ClientGetsItsFiles | demo/http-server/http_server.cc:29-155 | a client that writes GETs for files that are there, and asks to go on, reads one 200 with the file's bytes for each, in order, however its bytes are cut |
| Session.ServeConcat | demo/http-server/http_server.cc:113-148 | serving two batches of frames is serving them as one, unless the first finished |
| Session.RepliesDoNotDependOnChunks | demo/http-server/http_server.cc:92-155 | a connection's replies and deletion depend on its byte stream only, not on how it arrives |
| Session.ClosingDiscipline | demo/http-server/http_server.cc:142-154 | replies before the last say Keep-Alive; a reply says Close exactly when it is last and the connection is deleted |
| Session.OkKeepsIffAsked | src/http/request.cc:112-122 | a 200 keeps the connection exactly when some header line of its request asks |
| Session.ClientReadsTheRepliesIff | demo/http-server/http_server.cc:29-155 | the client reads a whole connection's replies, or what it is to see of them, with nothing left over, if and only if no served request is a HEAD whose CGI program prints something |
| HeadReplies.OutputSpoilsNextReply | demo/http-server/http_server.cc:81-88 | after such a HEAD the client stands before the program's output, which becomes part of the next reply's status line |
| HeadReplies.HeadOfProgramBreaksTheStream | demo/http-server/http_server.cc:81-88 | two such requests on one connection: the second reply is read with a wrong status line and bytes are left over |
| Session.SocketCarriesTheReplies | demo/http-server/http_server.cc:142-147 | under any chunking and any kernel answers the socket carries a start of each reply in order; a prefix of the replies without a fatal answer, and all once every send returned |
| Server.LoadThroughCache | demo/http-server/http_server.cc:45-56 | the bytes are the file's whether or not they were cached, the cache stays equal to the files, and a hit is a use, a miss an insertion |
| Server.HandleStaticResourceRequest | demo/http-server/http_server.cc:29-60 | appends the cacheless reply byte for byte, for any cache contents |
| Server.HandleCGIRequest | demo/http-server/http_server.cc:62-90 | appends the head with the corrected length and the program's output, or an error reply |
| Server.Answer | demo/http-server/http_server.cc:116-141 | the reply's bytes and whether it finishes; only the GET of an existing file touches the cache |
| Server.ProcessHttpRequest | demo/http-server/http_server.cc:92-155 | one call puts on the socket what the session model owes for the bytes received, deletes exactly on exit or a finishing reply, and keeps the rest buffered |
| Serving.ServeCalls | demo/http-server/http_server.cc:209-216 | any calls of the handler on connections sharing one new cache: each connection sends what its own calls make it send, as if alone and without a cache |
| Serving.LifeCarriesTheReplies | demo/http-server/http_server.cc:92-155 | over a connection's whole life, for any calls and kernel answers, the socket has a start of each reply to its byte stream in order, all of them unless a call still sends, whole ones unless the kernel failed; it is deleted only for a finishing reply or a client that is gone |
| Serving.LifeSendsTheReplies | demo/http-server/http_server.cc:92-155 | without a fatal answer a prefix of the replies to the byte stream, and all of them once no call is still sending |
| Lru.EvictsShortestPrefixIff | src/core/cache.cc:99-108 | k entries go exactly when dropping the k oldest makes room and dropping fewer does not |
| Lru.RunIsValid | src/core/cache.cc:65-122 | after every run urls are distinct and the total size is within capacity |
| Lru.RunIsOrderedByLastUse | src/core/cache.cc:72-76 | after every run the list is in the order of last insert or hit, each stamp the clock of that use |
| LruRecency.HoldsTheMostRecent | src/core/cache.cc:65-115 | after any requests the cache holds exactly the files asked for last, in that order, as many as fit together |
| Lru.StampsAscend | src/core/cache.h:20-25 | stamps never decrease from head to tail under a clock that does not go back |
| Lru.HitsReturnTheFile | demo/http-server/http_server.cc:48-55 | under any interleaving of calls that store files under their names, entries equal their files |
| LruInclusion.SmallIsSuffixOfLarge | src/core/cache.cc:65-115 | when the sizes agree the smaller cache's recency list is always a suffix of the larger's |
| LruInclusion.HitsAreIncluded | src/core/cache.cc:65-115 | when the sizes agree every hit of the smaller cache is a hit of the larger |
| LruInclusion.InclusionBreaks | src/core/cache.cc:93-96 | two requests after which the smaller list is no suffix, when one file fits both caches and one only the larger |
| LruInclusion.InclusionIffSizesAgree | src/core/cache.cc:65-115 | the suffix relation holds over all runs exactly when no file fits only the larger cache or none fits the smaller |
| LruHits.HitIsLost | src/core/cache.cc:82-108 | files that fit the smaller cache together, then files that only the larger accepts and that leave it too little room: the smaller still holds the first file, the larger has lost it |
| LruHits.HitsAreIncludedIff | src/core/cache.cc:65-115 | over all runs every hit of the smaller cache is a hit of the larger, exactly when the larger has room for any non-empty set of files that fits the smaller beside any files that only it accepts |
| LruHits.LargerCacheLosesAHit | src/core/cache.cc:93-108 | capacities 1 and 2, a one-byte and a two-byte file: a request found by the smaller cache only |
| Caching.CacheNode.Detach | src/core/cache.cc:35-38 | the neighbours point to each other |
| Caching.Cache.constructor | src/core/cache.cc:55-61 | an empty linked list between the sentinels |
| Caching.Cache.AppendToListTail | src/core/cache.cc:124-131 | the node becomes last; both chains, and the entries they spell, gain it |
| Caching.Cache.EvictFirst | src/core/cache.cc:100-107 | the oldest entry leaves list, map and counter; its identifier is in the map and nothing wraps |
| Caching.Cache.MakeRoom | src/core/cache.cc:99-108 | the loop ends and leaves exactly the entries that minimal eviction keeps |
| Caching.Cache.TryLoad | src/core/cache.cc:65-80 | hit exactly when resident, data appended, and the structure is the touched sequence |
| Caching.Cache.TryInsert | src/core/cache.cc:82-115 | inserts exactly when absent and small enough, and the structure is the inserted sequence |
| Caching.Cache.Clear | src/core/cache.cc:117-122 | an empty, sound structure |
| Caching.Cache.FoundIffResident | src/core/cache.cc:70-71 | the map finds exactly the urls of the list, at their nodes |
| ThreadPool.MutexStep | src/core/thread_pool.cc:22-41 | every step keeps the mutex held by exactly the thread inside the critical section |
| ThreadPool.ConservationStep | src/core/thread_pool.cc:19-46 | every step keeps: somebody asleep implies queued tasks are at most pending notifies plus awake idle workers |
| ThreadPoolRuns.NoTaskWaitsUnnoticed | src/core/thread_pool.cc:19-46 | work conservation over every run |
| ThreadPoolRuns.AllAsleepMeansNoTask | src/core/thread_pool.h:60-72 | when all workers sleep and no notify is coming the queue is empty |
| ThreadPoolRuns.PoppedInAcceptanceOrder | src/core/thread_pool.cc:38-41 | accepted tasks are those popped, in order, then those queued |
| ThreadPoolRuns.EachTaskIsInOnePlace | src/core/thread_pool.cc:38-45 | each accepted task is exactly once in queue, in one worker's hands or done |
| ThreadPoolRuns.DrainedForEver | src/core/thread_pool.cc:32-34 | once a worker has exited the queue stays empty, whatever submitters do |
| ThreadPoolRuns.AllAcceptedTasksAreDone | src/core/thread_pool.cc:51-63 | when every join has returned each accepted task has run exactly once |
| ThreadPoolRuns.StopReachesEveryWorkerIff | src/core/thread_pool.cc:51-55 | after notify_all no worker ever sleeps exactly when none stood between its test and its sleep |
| ThreadPoolRuns.DestructorCanAlwaysReturnIff | src/core/thread_pool.cc:51-63 | whatever follows notify_all the destructor can still return without a spurious wakeup, exactly when no worker stood between its test and its sleep |
| ThreadPoolRuns.DestructorReturnsUnlessWakeupLost | src/core/thread_pool.cc:51-63 | then at most a fixed number of steps remains, plus thirteen for each later call of SubmitTask, at whose end all workers are joined and all accepted tasks done |
| ThreadPoolRuns.SomebodyCanMove | src/core/thread_pool.cc:51-63 | no deadlock before the destructor has joined every worker, when none is asleep |
| ThreadPoolRuns.DestructorCanHang | src/core/thread_pool.cc:51-55 | a run of two workers after which the destructor waits with no step left but a spurious wakeup or a new call |
| ThreadPoolService.CallOutcome | src/core/thread_pool.h:60-72 | in every run a call that returned has its task accepted, and a refused one met a stopped pool and has not |
| ThreadPoolService.LateCallIsRefused | src/core/thread_pool.h:63-66 | once stopped, a call that has not tested stop_ yet is never accepted |
| ThreadPoolService.RunningPoolServesEveryCall | src/core/thread_pool.cc:19-46 | while the destructor has not started, at most a fixed number of steps passes, plus eighteen for each new call, until nobody can move; then every call has returned and its task has run exactly once |
| ThreadPoolService.EveryCallCanBeServed | src/core/thread_pool.cc:19-46 | from every such state each call under way or accepted task can be finished without a spurious wakeup |
| Ownership.StepKeeps | src/core/looper.cc:25-55 | every step of accept, poll, handle and delete keeps the ownership invariant |
| Ownership.NothingDangles | src/core/looper.cc:25-55 | in every interleaving the connections a thread is about to touch or destroy are alive |
| Ownership.DeletionFindsItsOwnConnection | src/core/looper.cc:47-55 | a handler's deletion finds and destroys exactly its own connection, even before the map insert was seen |
| Ownership.EachConnectionHasOneOwner | src/core/acceptor.cc:45-70 | each live connection is held by the accept callback or by one entry of one looper's map |
| Ownership.RegistrationsAreSound | src/core/poller.cc:41-77 | registered pointers are live and belong to the polling looper; neither epoll_ctl nor the map meets an existing entry |
| OwnershipRuns.NoConnectionEndsUnasked | src/core/looper.cc:47-55 | a connection is destroyed only by the deletion that its own handler asked for, earlier in the run |
| OwnershipRuns.AcceptedClientCanBeServed | src/core/acceptor.cc:45-70 | whenever the listener is idle a new client can be brought into the map and interest list of any looper |
| OwnershipRuns.HandlerCanCloseItsConnection | src/core/looper.cc:47-55 | a handler that gives up can always finish its deletion, whoever holds the lock, and nothing else is destroyed |
| OwnershipRuns.EveryReportIsStarted | src/core/looper.cc:25-33 | each reactor starts the callbacks of all reported connections, each report once and in order; the rest it still holds |
| Logger.NothingLostOrRepeated | src/log/logger.cc:120-165 | file, then messages in flight, then queue spell the pushes in order |
| Logger.QueueHoldsRecentPushes | src/log/logger.cc:120-165 | whenever the mutex is free the queue is exactly the pushes since the writer last released it |
| Logger.FileAtExit | src/log/logger.cc:155-164 | at exit the file lacks exactly the pushes made after the writer last released the mutex, so it is all of them exactly when there were none |
| Logger.QueueMayBeLeftAtExit | src/log/logger.cc:153-162 | a run that ends with a message still queued |
| Logger.WriterLeavesOnlyWhenAsked | src/log/logger.cc:160-163 | the writer has returned only if done_ was set |
| Logger.WriterLeavesWhenAsked | src/log/logger.cc:143-163 | once it is, the writer's steps are bounded, and it can take one until it has returned |
| Logger.EverythingCanBeWritten | src/log/logger.cc:143-163 | until then the writer alone can always bring the file up to every message pushed so far |

## Left out

- Caching.Cache.TryLoad: is atomic here; overlapping loads under the shared lock, which relink nodes at the same time, are not modelled.
- Caching.Cache.Clear: is atomic here, although the code takes no lock.
- Session.RepliesDoNotDependOnChunks: the receive that reports the client gone is not a chunk; the code then deletes the connection without answering what arrived with it, as `Server.ProcessHttpRequest` states.
- ThreadPoolRuns.DestructorReturnsUnlessWakeupLost: assumes that running tasks end.
- Connections.Connection.Send: stops with `StillTrying` when the given answers end, where the real loop goes on asking.
- The thread pool, the ownership hand-over and the logger are step relations on values, because their point is the interleaving; the C++ objects behind them are not classes here.
- `Header` and the parsed request are values: the code copies them and changes one field of a header in place.
- Memory orderings weaker than sequential consistency.
- Real sockets, `epoll`, the file system and the clock.
- `Looper::StartLoop` ending, and `Send` ending under endless would-block: the code does not guarantee either.
- `CGIRunner::Run` and its argument vector: fork, exec and raw memory.
- Address parsing, socket options, the choice of a reactor and the server's wiring.
- The searcher used by `IsCGIRequest`: a plain substring test stands for it.
- Log formatting, the writer's flush thresholds and its use of the clock; command-line options; the load generator.
- `Buffer::PushFront`; capacity and reallocation of vectors.

# Verified models of the network programming examples

A Dafny 4.11 model of the algorithms and protocols in this repository, with proofs. Where the code changes state in
place, the model is a class or a method over arrays and links, proved against a specification function; what that
function means is proved in lemmas. The concurrent programs are step relations, one step for each access to shared
state, with invariants over all interleavings and any number of threads.

| files | what they model |
|---|---|
| `SortedList`, `TimeHeap`, `TimeWheel` | the three timer containers: a sorted doubly linked list, a min-heap with lazy deletion, a hashed wheel |
| `TimerSpec`, `ListRun`, `HeapRun` | one specification of a timer container; runs of list and heap against it and against each other |
| `WheelRun`, `TimersAgree` | runs of the wheel against a plain countdown, and against list and heap |
| `Reaper` | the server that closes idle connections with the list |
| `HttpText`, `HttpLines`, `HttpParser`, `HttpGrammar`, `HttpRoundTrip`, `HttpServer` | the resumable HTTP parser: text scanning, line scanning, the state machine, the grammar it accepts, printing and parsing back, the in-place code |
| `HttpConn`, `HttpLength`, `HttpConnServer` | its sibling in the web server of chapter 15: as values, what its headers say and which requests it acts on, and in place |
| `RingServer`, `ThreadPool`, `OneShot` | three hand-off protocols: mutex and condition variable, semaphore and list, EPOLLONESHOT |
| `ProxyConn`, `ProxyPool`, `ProxyServer` | the springsnail proxy: buffers of a connection, the pool of connections, the class `mgr` |
| `ProxyWorld`, `ProxyRun` | its child process: what events do, as functions, and the main loop on the objects |
| `RoundRobin`, `PollScan` | dispatch to child processes, and the poll loop of the chat server |
| `Sockets` | the answers of the kernel to `recv`, and what fits a buffer of them |
| `Sequences`, `Maps` | sequences of distinct members; a map built entry by entry |

Sockets, epoll, poll, signals and the clock are replaced by their results: bytes, counts and errors that calls return,
descriptors that are handed out, times. The kernel is taken to hand out only descriptors that are not open, and to
report only what was asked for and errors. Callbacks do not call back into the container that runs them; `fired` and
`closed` record them in order. Integers are unbounded except for the content length, because no other counter of the
modelled code can grow past its type in a run that fits in memory and in a plausible lifetime; times are integers.
Bytes are `char`s.

What the proofs show about the code, beyond the properties it is meant to have:

- `adjust_timer` does not need a deadline that did not decrease: it may go down to that of the predecessor, and exactly
  a deadline before that breaks the order (`AdjustTimer`).
- Both parsers have a branch that looks back from LF to CR. It is never taken, because a CR at the end of the bytes
  leaves the saved index on the CR (`ParseLineFindsBreak`).
- `process_read` answers a bad line with NO_REQUEST, so the connection goes on reading; the line stays bad however many
  bytes follow (`BadLineStays`). So only a complete first line can make a request bad (`BadIff`).
- `Content-Length: 4294967296` counts as 0, and a negative length is waited for like a positive one: what is stored are
  the low 32 bits of a saturated 64-bit number (`NumberIff`, `ActsOnRequests`).
- `mgr::process` on a descriptor that is not in use leaves a null entry in `m_used`. `run_child` can get there: an
  `epoll_wait` batch may hold events of both ends of a connection that the first of them frees (`StaleIff`). A client that
  is then accepted with that number is never served, whatever happens later (`StaleEventHidesClient`, `HiddenForever`);
  two connections and two batches are enough (`ChildCanHideClient`). Without such an event the pool stays as it is meant
  to be over every run, and with one it does not (`RunIntactIff`, `RunChild`).
- The EPOLLONESHOT server closes a bad descriptor and then deletes it from the epoll set. Between the two another thread
  can accept the same number, and the deletion then silences the new connection: ten steps from the start are enough
  (`LateDeletionForgets`). Besides failed calls this is the only way to forget a connection (`ServedKeptIff`,
  `ServedIff`); without it each open descriptor has exactly one owner (`ExactlyOneOwner`), and with it still never two
  (`OneOwner`).
- A request that fills the buffer of 2048 bytes to the brim is not parsed: `recv` of length 0 returns 0, which `read`
  takes for a closed client (`Drain`).
- The `wb` test in the branch for POLLOUT of the chat server never fails (`Visit`).

## Model

| member | source | states |
|---|---|---|
| `SortedList.SortTimerLst.AddTimer` | highperformenceserver/examples/11/11-2lst_timer.h:43-62 | The timer goes behind every equal or earlier deadline and before every later one; all other nodes keep their order, the links stay acyclic and consistent in both directions, `tail` is the last node. |
| `SortedList.SortTimerLst.InsertAfter` | highperformenceserver/examples/11/11-2lst_timer.h:146-171 | The private overload walks from a given node and links the timer before the first later deadline, or at the end. |
| `SortedList.SortTimerLst.AdjustTimer` | highperformenceserver/examples/11/11-2lst_timer.h:63-87 | After a change of one deadline the same nodes are there, only that one moved, never forward; the list is sorted again if and only if its old predecessor is not later than the new deadline. So the deadlines that did not decrease are enough, and a decrease is harmful only past the predecessor. |
| `SortedList.SortTimerLst.Relink` | highperformenceserver/examples/11/11-2lst_timer.h:74-86 | The two relinking cases of `adjust_timer` move the timer behind every deadline up to its own. |
| `SortedList.SortTimerLst.DelTimer` | highperformenceserver/examples/11/11-2lst_timer.h:88-118 | Exactly the given timer leaves, whichever of the four positions it has. |
| `SortedList.SortTimerLst.Unlink` | highperformenceserver/examples/11/11-2lst_timer.h:94-117 | The four cases each leave a well-formed list without that one node. |
| `SortedList.SortTimerLst.Tick` | highperformenceserver/examples/11/11-2lst_timer.h:119-143 | Runs the callbacks of a prefix of the list, which holds exactly the timers with a deadline up to the current time; all others stay, in order. |
| `SortedList.SortTimerLst.FireFront` | highperformenceserver/examples/11/11-2lst_timer.h:127-142 | The loop takes nodes off the front until the head is not due; the head then has no predecessor, and a stale `tail` is harmless because it counts only with a head. |
| `SortedList.PlaceFound` | highperformenceserver/examples/11/11-2lst_timer.h:54-61 | Comparing with the head and walking on finds the one place that keeps the order with equal deadlines in order of arrival. |
| `SortedList.AdjustedOrder` | highperformenceserver/examples/11/11-2lst_timer.h:63-87 | Whether the adjusted list is sorted is decided by the predecessor alone, whether or not the node moved. |
| `SortedList.MovingKeepsOrder` | highperformenceserver/examples/11/11-2lst_timer.h:74-86 | A node moved behind the deadlines up to its own leaves a sorted list. |
| `SortedList.StayingKeepsOrder` | highperformenceserver/examples/11/11-2lst_timer.h:70-73 | A node left in place breaks the order exactly when its deadline is before its predecessor's. |
| `SortedList.SuffixKeepsOrder` | highperformenceserver/examples/11/11-2lst_timer.h:127-142 | What is left behind a fired prefix is sorted, so its head is the least deadline. |
| `TimeHeap.TimeHeap.constructor` | highperformenceserver/examples/11/11-6time_heap.h:37-49 | An empty heap of the given capacity, which may be 0. |
| `TimeHeap.TimeHeap.FromArray` | highperformenceserver/examples/11/11-6time_heap.h:50-77 | Null exactly when the capacity is less than the size; otherwise a heap of exactly the given timers. |
| `TimeHeap.TimeHeap.PercolateDown` | highperformenceserver/examples/11/11-6time_heap.h:166-187 | The hole-moving loop leaves the array as the swapping specification `SiftDown` does. |
| `TimeHeap.TimeHeap.Resize` | highperformenceserver/examples/11/11-6time_heap.h:188-206 | The capacity doubles and nothing else changes. |
| `TimeHeap.TimeHeap.AddTimer` | highperformenceserver/examples/11/11-6time_heap.h:88-110 | The heap holds one timer more, exactly the given one; it never overflows, if the capacity is not 0, which doubling leaves at 0. |
| `TimeHeap.TimeHeap.DelTimer` | highperformenceserver/examples/11/11-6time_heap.h:111-119 | Only the callback of the timer is cleared: the heap keeps it, and keeps its order. |
| `TimeHeap.TimeHeap.Top` | highperformenceserver/examples/11/11-6time_heap.h:120-127 | Null exactly for an empty heap, else a timer with a least deadline. |
| `TimeHeap.TimeHeap.PopTimer` | highperformenceserver/examples/11/11-6time_heap.h:128-140 | Exactly the top leaves, and what remains is a heap. |
| `TimeHeap.TimeHeap.Tick` | highperformenceserver/examples/11/11-6time_heap.h:141-162 | Runs the callbacks of exactly the timers that are due and not deleted, each as often as it is in the heap, in deadline order; drops the deleted due ones silently; leaves a heap of exactly the timers that are not due. |
| `TimeHeap.TimeHeap.DrainDue` | highperformenceserver/examples/11/11-6time_heap.h:145-161 | The loop of `tick` terminates on the heap size and fires and leaves what draining specifies. |
| `TimeHeap.InsertKeepsHeap` | highperformenceserver/examples/11/11-6time_heap.h:98-109 | Sifting up behind an append keeps the heap order and adds exactly the new timer. |
| `TimeHeap.SiftUpRestores` | highperformenceserver/examples/11/11-6time_heap.h:100-109 | Sifting up repairs a heap that is wrong only between one node and its parent. |
| `TimeHeap.SiftUpPermutes` | highperformenceserver/examples/11/11-6time_heap.h:100-109 | Sifting up neither loses nor duplicates a timer. |
| `TimeHeap.SiftDownRestores` | highperformenceserver/examples/11/11-6time_heap.h:166-187 | Sifting down repairs a heap that is wrong only between one node and its children, above any fixed index. |
| `TimeHeap.SiftDownPermutes` | highperformenceserver/examples/11/11-6time_heap.h:166-187 | Sifting down neither loses nor duplicates a timer. |
| `TimeHeap.HeapifyBuildsHeap` | highperformenceserver/examples/11/11-6time_heap.h:72-75 | Sifting down from some index to the root builds a heap of the same timers if the part below is in order. |
| `TimeHeap.InnerNodesSuffice` | highperformenceserver/examples/11/11-6time_heap.h:72-75 | Starting at `(cur_size-1)/2` is enough: any sequence becomes a heap of the same timers. |
| `TimeHeap.TopIsMinimum` | highperformenceserver/examples/11/11-6time_heap.h:120-127 | Local parent order makes the root a minimum of the whole heap. |
| `TimeHeap.PopMinKeepsHeap` | highperformenceserver/examples/11/11-6time_heap.h:134-139 | Moving the last timer to the root and sifting down leaves a heap. |
| `TimeHeap.PopMinPermutes` | highperformenceserver/examples/11/11-6time_heap.h:134-139 | Popping removes exactly the root. |
| `TimeHeap.DrainSeparates` | highperformenceserver/examples/11/11-6time_heap.h:145-161 | Popping while the top is due separates the due timers from the rest, which is a heap. |
| `TimeHeap.DrainPermutes` | highperformenceserver/examples/11/11-6time_heap.h:145-161 | Draining loses no timer and invents none. |
| `TimeHeap.DueInDeadlineOrder` | highperformenceserver/examples/11/11-6time_heap.h:145-161 | The due timers come out in non-decreasing deadline order. |
| `TimerSpec.FiringsAgree` | highperformenceserver/examples/11/11-6time_heap.h:141-162 | Any two firings that the specification allows for a tick hold the same timers with the same deadline at every position: only ties may be ordered differently. |
| `TimerSpec.ConformingRunsAgree` | highperformenceserver/examples/11/11-6time_heap.h:88-162 | Any two timer containers that conform are observationally equivalent on every sequence of operations, up to ties. |
| `TimerSpec.SortedPermutationsAreEqual` | highperformenceserver/examples/11/11-6time_heap.h:141-162 | Sorted permutations of each other are equal, the core of the equivalence. |
| `TimerSpec.LiveWereAdded` | highperformenceserver/examples/11/11-6time_heap.h:88-162 | Only timers that were added can be live. |
| `TimerSpec.LiveIff` | highperformenceserver/examples/11/11-6time_heap.h:88-162 | A timer is live exactly if it was added and since then neither deleted nor due at a tick. |
| `TimerSpec.ConformingFires` | highperformenceserver/examples/11/11-6time_heap.h:88-162 | A tick of a conforming run fires exactly the timers added with a deadline up to now and neither deleted nor due at a tick since, told by the operations alone; and those are left that were neither deleted nor due. |
| `ListRun.RunList` | highperformenceserver/examples/11/11-2lst_timer.h:43-143 | For every legal sequence of adds, deletes and ticks the list fires at each tick exactly the due live timers in deadline order, and ends with exactly the live ones. |
| `ListRun.PrefixFires` | highperformenceserver/examples/11/11-2lst_timer.h:127-142 | The prefix in front of the first later deadline is what the specification fires. |
| `HeapRun.RunHeap` | highperformenceserver/examples/11/11-6time_heap.h:88-162 | The same for the lazily deleting heap, at any positive initial capacity. |
| `HeapRun.ArmedDueFires` | highperformenceserver/examples/11/11-6time_heap.h:111-162 | The armed due timers of the heap are what the specification fires, although deleted ones are still in it. |
| `HeapRun.RunBoth` | highperformenceserver/examples/11/11-6time_heap.h:88-162 | List and heap side by side: at every tick the same timers fire, with equal deadlines position by position, and the same are left. |
| `TimeWheel.TimeWheel.AddTimer` | highperformenceserver/examples/11/11-5tw_timer.h:56-86 | Null exactly for a negative timeout; else a new timer whose remaining ticks are the timeout, at least one, and no other timer is affected. |
| `TimeWheel.TimeWheel.DelTimer` | highperformenceserver/examples/11/11-5tw_timer.h:87-112 | Exactly the given timer leaves its slot; every slot list stays well formed. |
| `TimeWheel.TimeWheel.Tick` | highperformenceserver/examples/11/11-5tw_timer.h:113-153 | Fires exactly the timers with nothing remaining, each once, and lowers the remaining ticks of every other one by exactly one. |
| `TimeWheel.TimeWheel.VisitCurrent` | highperformenceserver/examples/11/11-5tw_timer.h:115-151 | Of the current slot exactly the timers with rotation 0 fire; the others lose one rotation, and other slots are untouched. |
| `TimeWheel.Visit` | highperformenceserver/examples/11/11-5tw_timer.h:115-151 | The loop over a linked slot fires and unlinks, or lowers, each of its timers once, in slot order, while it changes the list it walks. |
| `TimeWheel.Unlink` | highperformenceserver/examples/11/11-5tw_timer.h:94-111 | Both cases of unlinking leave a well-formed slot without that one timer. |
| `TimeWheel.LeftWhenAdded` | highperformenceserver/examples/11/11-5tw_timer.h:71-72 | `rotation*N + (time_slot - cur_slot) mod N` is the number of ticks a timer is added with. |
| `TimeWheel.LeftAfterTick` | highperformenceserver/examples/11/11-5tw_timer.h:120-152 | That number is 0 exactly for the timers that the visit fires, and one tick lowers it by one for every other. |
| `TimeWheel.VisitSelects` | highperformenceserver/examples/11/11-5tw_timer.h:117-151 | Which timers a visit fires and which it keeps, by their rotation before it. |
| `TimeWheel.VisitLowers` | highperformenceserver/examples/11/11-5tw_timer.h:120-124 | The kept timers have exactly one rotation less. |
| `WheelRun.CountdownOf` | highperformenceserver/examples/11/11-5tw_timer.h:56-153 | The plain countdown of a timer that is not deleted is its ticks minus the ticks since it was added, until it has fired. |
| `WheelRun.ExpiresOnTime` | highperformenceserver/examples/11/11-5tw_timer.h:56-153 | A timer that is never deleted expires at exactly one tick. |
| `WheelRun.CountsDownSince` | highperformenceserver/examples/11/11-5tw_timer.h:56-153 | Whoever counts down was added with a timeout that is not negative, and not deleted since. |
| `WheelRun.ConformingFires` | highperformenceserver/examples/11/11-5tw_timer.h:56-153 | A tick of a conforming run fires exactly the timers that were added as many ticks ago as their timeout says, at least one, and not deleted since, told by the operations alone. |
| `WheelRun.RunWheel` | highperformenceserver/examples/11/11-5tw_timer.h:56-153 | For every legal sequence of adds, deletes and ticks, each tick fires exactly the expired timers of the countdown, each once; a timer that is never deleted fires on the (ticks+1)-th tick and on no other. |
| `TimersAgree.DeadlinesMatch` | highperformenceserver/examples/11/11-5tw_timer.h:56-153 | Behind any operations the countdown of each timer on the wheel is what is left to its deadline, when that is the number of the tick on which it expires. |
| `TimersAgree.RunAllThree` | highperformenceserver/examples/11/11-5tw_timer.h:56-153 | All three containers side by side: the list and the heap, given those deadlines, fire the same timers as the wheel, tick by tick. |
| `Reaper.Server.OnAccept` | highperformenceserver/examples/11/11-3nonactive_conn.cpp:131-146 | The new connection is open with its time recorded and a timer three slots later; the timers are in bijection with the open connections. |
| `Reaper.Server.OnData` | highperformenceserver/examples/11/11-3nonactive_conn.cpp:205-215 | A successful receive moves the timer of exactly that connection to three slots from now. |
| `Reaper.Server.OnGone` | highperformenceserver/examples/11/11-3nonactive_conn.cpp:186-204 | End of file or an error closes exactly that connection and removes exactly its timer. |
| `Reaper.Server.TimerHandler` | highperformenceserver/examples/11/11-3nonactive_conn.cpp:60-64 | A tick closes exactly the connections whose last activity was at or before now minus three slots. |
| `Reaper.Server.Handle` | highperformenceserver/examples/11/11-3nonactive_conn.cpp:128-227 | One step of the event loop changes the open connections and the recorded times as the specification says; the alarm flag is set by an alarm and cleared by the end of a batch, and by nothing else. |
| `Reaper.TimeoutIff` | highperformenceserver/examples/11/11-3nonactive_conn.cpp:167-171 | The flag is set exactly when an alarm came and no batch has ended since. |
| `Reaper.LastActivity` | highperformenceserver/examples/11/11-3nonactive_conn.cpp:142-145 | The recorded time of an open connection is that of its last accept or successful receive; since then it was not lost, and at no end of a batch with a pending alarm had three slots passed. |
| `Reaper.StillOpen` | highperformenceserver/examples/11/11-3nonactive_conn.cpp:142-145 | Conversely, such a connection is open with that time. |
| `Reaper.OpenIff` | highperformenceserver/examples/11/11-3nonactive_conn.cpp:119-228 | So which connections are open can be told from the steps alone. |
| `Reaper.ClosesWhatIsDue` | highperformenceserver/examples/11/11-3nonactive_conn.cpp:223-227 | What a step may close in the state of the specification is what the steps before it say: at the end of a batch exactly the connections for which an alarm is pending and whose last accept or receive, with no loss and no closing since, was at or before now minus three slots; each once, the longest idle first. |
| `Reaper.TimesAreBounded` | highperformenceserver/examples/11/11-3nonactive_conn.cpp:142-143 | With a clock that does not run backwards no recorded time is in the future, so deadlines never decrease when they are adjusted. |
| `Reaper.Extend` | highperformenceserver/examples/11/11-3nonactive_conn.cpp:208-214 | Adjusting after a deadline that did not decrease keeps list, table and deadlines in step. |
| `Reaper.FiringCloses` | highperformenceserver/examples/11/11-3nonactive_conn.cpp:60-72 | What the list fires is what may be closed: each idle connection once, the longest idle first. |
| `Reaper.Serve` | highperformenceserver/examples/11/11-3nonactive_conn.cpp:119-228 | In every run with a non-decreasing clock each step closes exactly what the steps before it make due, as above, and the connections open at the end are exactly those neither lost nor reaped since they were last touched. |
| `HttpText.RequestLineIff` | highperformenceserver/examples/8/8-3httpparser.cpp:52-99 | The scan accepts a line if and only if it is a request line of the grammar (method GET in any case, blanks, a target with `/` or `http://` and a path, blanks, HTTP/1.1), with exactly that path. |
| `HttpText.ScanIsSound` | highperformenceserver/examples/8/8-3httpparser.cpp:52-99 | An accepted line splits into the parts of the grammar. |
| `HttpText.ScanAccepts` | highperformenceserver/examples/8/8-3httpparser.cpp:52-99 | Every line of the grammar is accepted, with its path. |
| `HttpLines.ParseLineFindsBreak` | highperformenceserver/examples/8/8-3httpparser.cpp:18-50 | From any saved index the scan stops at the first CR or LF of the line: it is open, ended by CRLF, or bad; the branch that looks back from an LF to a CR is never taken. |
| `HttpLines.ParseLineResumes` | highperformenceserver/examples/8/8-3httpparser.cpp:18-50 | Scanning, then scanning again with more bytes, is scanning once. |
| `HttpLines.LineOkIsClean` | highperformenceserver/examples/8/8-3httpparser.cpp:30-35 | A line that ended leaves the bytes behind it untouched. |
| `HttpParser.Resumes` | highperformenceserver/examples/8/8-3httpparser.cpp:121-167 | Parsing, then parsing again with more bytes from the saved indices, state and cut buffer, is parsing once, in verdict and state. |
| `HttpParser.ChunkingIsIrrelevant` | highperformenceserver/examples/8/8-3httpparser.cpp:210-240 | However the bytes are split, feeding the chunks gives the verdict and the state of feeding everything at once; while there is no verdict, that includes indices, check state and buffer. |
| `HttpParser.SplitsAgree` | highperformenceserver/examples/8/8-3httpparser.cpp:210-240 | Two splits of the same bytes give the same verdict. |
| `HttpParser.VerdictIsFinal` | highperformenceserver/examples/8/8-3httpparser.cpp:225-239 | A verdict on a prefix is not changed by any bytes behind it. |
| `HttpParser.InvKept` | highperformenceserver/examples/8/8-3httpparser.cpp:121-167 | While there is no verdict the indices stay ordered and the checked part of the current line holds no line break, and a NUL stands in front of that line; INTERNAL_ERROR is never answered. |
| `HttpParser.ParserJudges` | highperformenceserver/examples/8/8-3httpparser.cpp:121-167 | The parser on its cut buffer computes the verdict that an index-free reading of the original bytes gives. |
| `HttpParser.FeedJudges` | highperformenceserver/examples/8/8-3httpparser.cpp:210-240 | Under every chunking the receive loop gives that verdict. |
| `HttpRoundTrip.PrintedIsJudged` | highperformenceserver/examples/8/8-3httpparser.cpp:52-167 | A printed request is judged complete, with its path. |
| `HttpRoundTrip.RoundTrip` | highperformenceserver/examples/8/8-3httpparser.cpp:52-167 | Printing GET, a target without blank, CR, LF or NUL, HTTP/1.1, any well-formed header lines and an empty line, then feeding it in any chunks, gives GET_REQUEST and the path: for origin-form (section 5.3.1 of RFC 7230) and for http absolute-form with a path (section 5.3.2). |
| `HttpServer.ScanLine` | highperformenceserver/examples/8/8-3httpparser.cpp:18-50 | The loop over the array is the line scan, writes only its two NULs, and leaves the rest of the array. |
| `HttpServer.CutRequestLine` | highperformenceserver/examples/8/8-3httpparser.cpp:52-99 | The in-place version cuts at the two blanks and answers as the scan of the text does. |
| `HttpServer.Session.ParseInPlace` | highperformenceserver/examples/8/8-3httpparser.cpp:121-167 | The main loop on the array buffer and its four saved variables. |
| `HttpServer.Session.Receive` | highperformenceserver/examples/8/8-3httpparser.cpp:212-225 | One `recv` appends behind the bytes that are there. |
| `HttpServer.Serve` | highperformenceserver/examples/8/8-3httpparser.cpp:202-241 | For every sequence of answers to `recv`, end of file, errors and a full buffer included: as far as the bytes fit the buffer, the reply is the good one exactly if they are a complete request of the grammar, the bad one exactly if they are a bad request, and there is none otherwise. |
| `HttpGrammar.AcceptsExactlyRequests` | highperformenceserver/examples/8/8-3httpparser.cpp:52-241 | Under every chunking the parser answers GET_REQUEST with a path if and only if the bytes start with a line of the grammar that names the path, header lines, and an empty line (each up to its first NUL). |
| `HttpGrammar.RequestIsAccepted` | highperformenceserver/examples/8/8-3httpparser.cpp:52-167 | Every such request is judged complete, with its path. |
| `HttpGrammar.AcceptedIsRequest` | highperformenceserver/examples/8/8-3httpparser.cpp:52-167 | Whatever is judged complete splits into such a request. |
| `HttpGrammar.RejectsExactlyBad` | highperformenceserver/examples/8/8-3httpparser.cpp:18-241 | Under every chunking the parser answers BAD_REQUEST if and only if the first line is complete and no line of the grammar, or a LF without a CR or a CR without a LF comes before the empty line; and NO_REQUEST if and only if the bytes are neither that nor a complete request. |
| `HttpGrammar.BadIsJudged` | highperformenceserver/examples/8/8-3httpparser.cpp:37-47 | Every such request is judged bad. |
| `HttpGrammar.JudgedBadIsBad` | highperformenceserver/examples/8/8-3httpparser.cpp:37-47 | Whatever is judged bad is such a request. |
| `HttpGrammar.VerdictIff` | highperformenceserver/examples/8/8-3httpparser.cpp:121-167 | The three verdicts on all byte strings, told by the grammar. |
| `HttpConn.ConnResumes` | highperformenceserver/examples/15/15-5http_conn.cpp:267-322 | The production parser can be resumed as well, as long as no body is awaited. |
| `HttpConn.ConnChunkingIsIrrelevant` | highperformenceserver/examples/15/15-5http_conn.cpp:267-322 | Under every chunking the outcome is that of processing everything at once; so is the whole state while there is no outcome, and all of it but the bytes not read any more once there is one. |
| `HttpConn.OldStringsStay` | highperformenceserver/examples/15/15-5http_conn.cpp:181-205 | The stored pointer to the request path still shows the same text after later lines are cut. |
| `HttpConn.BadLineStays` | highperformenceserver/examples/15/15-5http_conn.cpp:116-126 | A bad line, answered with NO_REQUEST, is still bad whenever it is looked at again. |
| `HttpConn.FieldsAreDeclared` | highperformenceserver/examples/15/15-5http_conn.cpp:226-240 | The stored content length and the flag for keeping the connection are what the header lines of the original bytes leave behind. |
| `HttpConn.RunsTogether` | highperformenceserver/examples/15/15-5http_conn.cpp:267-322 | Step by step the production parser and the small one do the same, but for what the content length decides; no verdict of the small one means no outcome, and a bad request is bad for the small one. |
| `HttpConn.ParsersAgree` | highperformenceserver/examples/15/15-5http_conn.cpp:97-322 | `do_request` is reached with a path if and only if the small parser answers GET_REQUEST with that path and the header lines leave a content length of 0. With any other length, the small parser answers GET_REQUEST if and only if a body is awaited; what follows then is not modelled. Each under any chunking of the same bytes. |
| `HttpLength.DecimalHasItsValue` | highperformenceserver/examples/15/15-5http_conn.cpp:239-239 | A number is read back from its decimal print. |
| `HttpLength.NumberIsRead` | highperformenceserver/examples/15/15-5http_conn.cpp:239-239 | `atol` of white space, a sign, digits and anything else is the value of the digits with that sign, saturated to 64 bits. |
| `HttpLength.NumberIff` | highperformenceserver/examples/15/15-5http_conn.cpp:239-239 | What is stored is the 32-bit number with the same low bits, for every text. |
| `HttpLength.LengthAfterHeader` | highperformenceserver/examples/15/15-5http_conn.cpp:226-240 | A Content-Length header, in any case, leaves exactly the number behind its colon, and every other header leaves the length as it is. |
| `HttpLength.LengthIsUnique` | highperformenceserver/examples/15/15-5http_conn.cpp:235-240 | What the last Content-Length header gives is one number. |
| `HttpLength.LingerAfterHeader` | highperformenceserver/examples/15/15-5http_conn.cpp:226-234 | The connection is to be kept behind a `Connection:` header with blanks and `keep-alive`, in any case, and behind no other. |
| `HttpLength.RequestWithIff` | highperformenceserver/examples/15/15-5http_conn.cpp:220-240 | The declared length of a complete request is what its last Content-Length header gives, or 0 without one. |
| `HttpLength.BadIff` | highperformenceserver/examples/15/15-5http_conn.cpp:162-207 | A request is bad exactly if its first line is complete and no line of the grammar; no header line is ever bad. |
| `HttpLength.ActsOnRequests` | highperformenceserver/examples/15/15-5http_conn.cpp:97-322 | Under every chunking `do_request` is called with a path if and only if the bytes start with a request of the grammar for that path whose last Content-Length header gives 0, or that has none; a body is awaited if and only if they start with a request whose last one gives another number; and the answer is BAD_REQUEST if and only if the first line is bad. |
| `HttpLength.StoresFields` | highperformenceserver/examples/15/15-5http_conn.cpp:220-240 | Behind a complete request the stored length is that number, and the connection is to be kept exactly if some header asks for it. |
| `HttpLength.PrintedIsActedOn` | highperformenceserver/examples/15/15-5http_conn.cpp:97-322 | A printed request is acted on as its headers say, under every chunking. |
| `HttpLength.PrintedLengthDecides` | highperformenceserver/examples/15/15-5http_conn.cpp:220-240 | A printed request whose last Content-Length header prints n, 0 <= n < 2^31, behind any blanks ends in `do_request` with its path for n = 0, and in waiting for a body otherwise, under every chunking. |
| `HttpConnServer.HttpConnection.constructor` | highperformenceserver/examples/15/15-5http_conn.cpp:78-95 | The cleared connection. |
| `HttpConnServer.HttpConnection.ParseRequestLine` | highperformenceserver/examples/15/15-5http_conn.cpp:162-207 | The in-place request line: cuts, check state and the stored path pointer. |
| `HttpConnServer.HttpConnection.HandleLine` | highperformenceserver/examples/15/15-5http_conn.cpp:276-318 | One pass behind `parse_line` on the array buffer. |
| `HttpConnServer.HttpConnection.ProcessReadInPlace` | highperformenceserver/examples/15/15-5http_conn.cpp:267-322 | The whole loop on the array buffer. |
| `HttpConnServer.HttpConnection.Drain` | highperformenceserver/examples/15/15-5http_conn.cpp:133-160 | The loop of `read`, for any answers of the kernel: the bytes that fit are appended, and it fails exactly for an error, the end of file, or a buffer that is filled to the brim, where `recv` of length 0 returns 0. |
| `HttpConnServer.HttpConnection.Read` | highperformenceserver/examples/15/15-5http_conn.cpp:133-160 | The same for the whole of `read`, which also fails for a buffer that is full before. |
| `HttpConnServer.ParsedAreRead` | highperformenceserver/examples/15/15-5http_conn.cpp:133-160 | The bytes that are parsed are those of the batches before the first that meets an error or the end, or that fills the buffer. |
| `HttpConnServer.ServeRequest` | highperformenceserver/examples/15/15-5http_conn.cpp:133-322 | For every sequence of batches of kernel answers, until an outcome or until `read` fails: the outcome is the one above, of the bytes of exactly the batches that can be read. |
| `RingServer.MutexKept` | 30chp/serv08.c:185-251 | At most one of the threads and the acceptor is between lock and unlock. |
| `RingServer.RingKeptByThread` | 30chp/serv08.c:191-198 | A step of a thread keeps the ring, the indices and the history in step. |
| `RingServer.RingKeptByMain` | 30chp/serv08.c:237-251 | So does a step of the acceptor. |
| `RingServer.MeetIsEmpty` | 30chp/serv08.c:193-194 | Until the ring is full the two indices meet exactly when it is empty. |
| `RingServer.WakeKept` | 30chp/serv08.c:191-251 | While a thread is blocked, every queued descriptor has a thread of its own on the way, but for one whose signal is due. |
| `RingServer.Reachable` | 30chp/serv08.c:185-251 | All three invariants hold in every state of every run, for any number of threads and any interleaving, spurious wake-ups included. |
| `RingServer.NoLostWakeUp` | 30chp/serv08.c:191-251 | The threads are never all blocked while a descriptor waits and no signal is due. |
| `RingServer.ServedKept` | 30chp/serv08.c:195-201 | What was taken is what threads began to serve, then the descriptor in the hand of the thread that has the mutex. |
| `RingServer.FirstInFirstOut` | 30chp/serv08.c:191-251 | Accepted descriptors are those that threads began to serve, the one just taken, then the ring read circularly, then the one on its way in: in order, none lost, none taken twice. |
| `RingServer.TakerServes` | 30chp/serv08.c:191-206 | In every run the thread that took a descriptor serves that very one before it comes back for the mutex. |
| `RingServer.ExitsWhenFull` | 30chp/serv08.c:242-248 | The server exits exactly when a descriptor fills the last place. |
| `ThreadPool.LockKept` | highperformenceserver/examples/15/15-3threadpool.h:70-114 | At most one producer or worker holds the lock. |
| `ThreadPool.QueueKept` | highperformenceserver/examples/15/15-3threadpool.h:74-106 | The list is bounded and the history is in step with it. |
| `ThreadPool.DemandKept` | highperformenceserver/examples/15/15-3threadpool.h:79-107 | Each step keeps the list matched by semaphore counts, workers past the wait and producers about to post. |
| `ThreadPool.Reachable` | highperformenceserver/examples/15/15-3threadpool.h:70-114 | The invariants hold in every state of every run, interrupted waits included. |
| `ThreadPool.NoneStranded` | highperformenceserver/examples/15/15-3threadpool.h:70-114 | No request is stranded: with all workers asleep and no producer about to post, a non-empty list means that a worker can wake. |
| `ThreadPool.ProcessedKept` | highperformenceserver/examples/15/15-3threadpool.h:96-113 | The requests taken that are no null pointers are those processed, in that order, then the one just popped. |
| `ThreadPool.PostKept` | highperformenceserver/examples/15/15-3threadpool.h:79-82 | There is one post for each request appended. |
| `ThreadPool.EachTakenOnceInOrder` | highperformenceserver/examples/15/15-3threadpool.h:70-114 | In every run requests are taken once each, in order, and there are never more than `max_requests + 1` in the list; those taken that are no null pointers are those processed, in that order, and at most one that its worker is about to process; the semaphore was posted once for each. |
| `ThreadPool.PopperProcesses` | highperformenceserver/examples/15/15-3threadpool.h:96-113 | In every run the worker that popped a request processes that very one, by a step of its own, before it waits again; a null pointer sends it straight back. |
| `ThreadPool.AppendDecides` | highperformenceserver/examples/15/15-3threadpool.h:70-83 | In every run `append(r)` tests the list once; it refuses exactly when the list is longer than `max_requests` at that test, and then the list stays as it is; otherwise `r` becomes the last request and the call ends with its post. |
| `OneShot.InvKept` | highperformenceserver/epoll/epoll_server_edge_trigger_oneshot.c:122-230 | Each of the ten kinds of steps keeps the kernel, event and accept invariants. |
| `OneShot.FinishKeepsInv` | highperformenceserver/epoll/epoll_server_edge_trigger_oneshot.c:127-226 | Finishing an event is safe whatever the kernel then does with its descriptor alone. |
| `OneShot.WaitKeepsInv` | highperformenceserver/epoll/epoll_server_edge_trigger_oneshot.c:124-124 | Delivery disarms, so that a delivered descriptor has one holder. |
| `OneShot.WithinKeepsInv` | highperformenceserver/epoll/epoll_server_edge_trigger_oneshot.c:133-173 | Accepting, adding and the late deletion keep the invariants, with reuse of descriptors. |
| `OneShot.Reachable` | highperformenceserver/epoll/epoll_server_edge_trigger_oneshot.c:112-232 | The invariants hold in every state of every run. |
| `OneShot.AtMostOneHolder` | highperformenceserver/epoll/epoll_server_edge_trigger_oneshot.c:122-230 | A descriptor has at most one unfinished event, and none while it is armed. |
| `OneShot.OneOwner` | highperformenceserver/epoll/epoll_server_edge_trigger_oneshot.c:122-230 | In every reachable state, armed (0 or 1) plus unfinished events over all threads is at most 1 for each descriptor. |
| `OneShot.ExclusiveUse` | highperformenceserver/epoll/epoll_server_edge_trigger_oneshot.c:176-226 | Two threads never work on the same descriptor, and none on a closed one. |
| `OneShot.OpenIff` | highperformenceserver/epoll/epoll_server_edge_trigger_oneshot.c:131-226 | In every run a descriptor is open exactly from its accept, or from the start for the listener, until a thread at an event for it closes it, because the event is bad or receiving has ended. |
| `OneShot.ServedKeptIff` | highperformenceserver/epoll/epoll_server_edge_trigger_oneshot.c:122-230 | If every open descriptor is armed, being handled or about to be added, then so it is behind a step if and only if the step is no failed `accept` or `epoll_ctl`, and no deletion that meets a number registered anew. |
| `OneShot.DeletionServesIff` | highperformenceserver/epoll/epoll_server_edge_trigger_oneshot.c:132-133 | The deletion after a close forgets nobody if and only if the number has not been registered anew in between. |
| `OneShot.ServedIff` | highperformenceserver/epoll/epoll_server_edge_trigger_oneshot.c:112-232 | Over every run nobody is forgotten up to some point if and only if no step up to it was one of these. |
| `OneShot.ExactlyOneOwner` | highperformenceserver/epoll/epoll_server_edge_trigger_oneshot.c:122-230 | In every run without such a step, each open descriptor has exactly one owner at all times: the epoll set, one event in one thread, or the thread that is about to add it. |
| `OneShot.LateDeleteStrands` | highperformenceserver/epoll/epoll_server_edge_trigger_oneshot.c:132-173 | From any reachable state with a thread that is about to delete what it closed and another one at the listener, three enabled steps leave a new connection open, but neither registered nor held. |
| `OneShot.LateDeletionForgets` | highperformenceserver/epoll/epoll_server_edge_trigger_oneshot.c:112-232 | A run of ten steps from the start in which two threads do so to a client, without any failed call. |
| `ProxyConn.Conn.Reset` | highperformenceserver/examples/springsnail/conn.cpp:42-52 | Both directions are empty with all their room, the client is gone, the server descriptor stays. |
| `ProxyConn.Conn.ReadClt` | highperformenceserver/examples/springsnail/conn.cpp:54-82 | Takes the offered bytes that fit, in order, and only those; the other direction is untouched; OK and BUFFER_FULL mean that bytes are pending, NOTHING that none are. |
| `ProxyConn.Conn.ReadSrv` | highperformenceserver/examples/springsnail/conn.cpp:84-113 | The same from the server. |
| `ProxyConn.Conn.WriteSrv` | highperformenceserver/examples/springsnail/conn.cpp:115-144 | Sends pending bytes in order, as many as are taken; BUFFER_EMPTY exactly when none are left, and then all the room is back. |
| `ProxyConn.Conn.WriteClt` | highperformenceserver/examples/springsnail/conn.cpp:146-175 | The same to the client. |
| `ProxyConn.Conn.PendingIsBuffered` | highperformenceserver/examples/springsnail/conn.cpp:54-175 | Received bytes are the sent ones followed by `buffer[write_idx..read_idx]`, in both directions. |
| `ProxyConn.RecvLoop` | highperformenceserver/examples/springsnail/conn.cpp:57-80 | The receive loop fills the buffer from the read index on and stops for the first of: full, would block, error, end of file. |
| `ProxyConn.SendLoop` | highperformenceserver/examples/springsnail/conn.cpp:118-143 | The send loop empties the buffer from the write index on and stops for the first of: empty, would block, error, closed. |
| `Sockets.OfferedBeforeStop` | highperformenceserver/examples/springsnail/conn.cpp:57-80 | The bytes on offer are those of the answers before the first that gives none, and that one says whether the socket would block, failed or ended. |
| `Sockets.RecvFailsIff` | highperformenceserver/examples/springsnail/conn.cpp:57-80 | An error or the end is met exactly if it comes while there is room. |
| `ProxyConn.DemandBeforeStop` | highperformenceserver/examples/springsnail/conn.cpp:118-143 | The same for what a socket takes. |
| `ProxyConn.SendFailsIff` | highperformenceserver/examples/springsnail/conn.cpp:118-143 | The same for a `send` while bytes are pending. |
| `ProxyConn.ReadReceives` | highperformenceserver/examples/springsnail/conn.cpp:54-113 | A read receives, in order, exactly what the answers give, as far as there is room. |
| `ProxyConn.WriteSends` | highperformenceserver/examples/springsnail/conn.cpp:115-175 | A write sends, in order, exactly as many of the bytes received and not yet sent as the answers take. |
| `ProxyConn.ReadKeepsInv` | highperformenceserver/examples/springsnail/conn.cpp:54-113 | A direction with nothing pending has all its room, so BUFFER_FULL always leaves something to send. |
| `ProxyConn.WriteKeepsInv` | highperformenceserver/examples/springsnail/conn.cpp:115-175 | The same behind a write. |
| `ProxyConn.NothingIsLost` | highperformenceserver/examples/springsnail/conn.cpp:54-175 | As long as everything offered fits, everything offered is received. |
| `ProxyConn.Relay` | highperformenceserver/examples/springsnail/conn.cpp:54-175 | Over every interleaving of the four calls, partial reads and writes, full buffers and index resets, each side is sent exactly what a byte queue of its own direction lets through. |
| `ProxyPool.PickKeepsInv` | highperformenceserver/examples/springsnail/mgr.cpp:87-110 | Picking a connection for a new client and setting the client keeps every object in exactly one place, with descriptors that no other object goes by; and it keeps the pool intact, with each busy object keyed by both its descriptors. |
| `ProxyPool.FreeKeepsInv` | highperformenceserver/examples/springsnail/mgr.cpp:112-122 | So does freeing, which removes both keys of exactly that connection; its old server descriptor never collides in the freed map. |
| `ProxyPool.ReconnectKeepsInv` | highperformenceserver/examples/springsnail/mgr.cpp:130-146 | One reconnect makes the object idle under its new descriptor or drops it; a new descriptor may equal an old key. |
| `ProxyPool.RecycleKeepsInv` | highperformenceserver/examples/springsnail/mgr.cpp:124-148 | A whole recycling leaves no freed object, touches nobody else, and makes an object idle under the descriptor that its reconnect gets, or drops it if it gets none. |
| `ProxyPool.RecyclesAsWished` | highperformenceserver/examples/springsnail/mgr.cpp:130-146 | The reconnect of a key gets its descriptor exactly when that is not open and no reconnect of a smaller key has got it. |
| `ProxyPool.MakeKeepsInv` | highperformenceserver/examples/springsnail/mgr.cpp:51-75 | Each connection that the constructor builds joins as an idle one. |
| `ProxyPool.LookUpKeepsInvIff` | highperformenceserver/examples/springsnail/mgr.cpp:150-156 | `m_used[ fd ]` keeps the pool intact if and only if the descriptor is one of a busy connection; otherwise it leaves a null entry. |
| `ProxyPool.LookUpKeepsLax` | highperformenceserver/examples/springsnail/mgr.cpp:150-156 | In any case every object stays in one place, so that the rest of a run can be followed. |
| `ProxyPool.StaleLookUpHidesClient` | highperformenceserver/examples/springsnail/mgr.cpp:103-156 | After such an entry a client accepted with that descriptor gets a busy connection that no event of it finds. |
| `ProxyPool.UsedCount` | highperformenceserver/examples/springsnail/mgr.cpp:82-85 | In an intact pool the used count is twice the number of busy connections. |
| `ProxyServer.Mgr.PickConn` | highperformenceserver/examples/springsnail/mgr.cpp:87-110 | Null exactly when no connection is idle; else the one with the least server descriptor, moved to the used map under both keys. |
| `ProxyServer.Mgr.FreeConn` | highperformenceserver/examples/springsnail/mgr.cpp:112-122 | On the objects and maps: the connection is reset, both descriptors closed and unwatched. |
| `ProxyServer.Mgr.RecycleConns` | highperformenceserver/examples/springsnail/mgr.cpp:124-148 | On the objects and maps: the recycling above, for any results of the reconnects; idle exactly those whose reconnect gets a descriptor. |
| `ProxyServer.Mgr.ClientEvent` | highperformenceserver/examples/springsnail/mgr.cpp:157-230 | What each of the client's events does to bytes, epoll interest and pool, and when it frees. |
| `ProxyServer.Mgr.ServerEvent` | highperformenceserver/examples/springsnail/mgr.cpp:231-306 | The same for the server's events, which never free but remember a failure. |
| `ProxyServer.Mgr.Process` | highperformenceserver/examples/springsnail/mgr.cpp:150-312 | For every descriptor, operation and kernel answers: the new pool, the bytes of all connections and the result; NOTHING and a null entry when no connection is found. One that is found is freed, and CLOSED returned, if and only if the descriptor is that of its client, the operation is READ or WRITE, and either the call itself meets an error or the end before the buffer is full or empty, or the server is remembered to have failed. An intact pool stays so if and only if the descriptor is in use. |
| `ProxyServer.Mgr.Accept` | highperformenceserver/examples/springsnail/processpool.h:230-243 | A new client gets an idle connection, or its descriptor is closed and nothing has changed. |
| `ProxyServer.Mgr.PickedIsNew` | highperformenceserver/examples/springsnail/mgr.cpp:112-122 | A connection that is handed to a client holds no byte of an earlier client. |
| `ProxyServer.Mgr.Build` | highperformenceserver/examples/springsnail/mgr.cpp:51-75 | One turn of the constructor's loop builds a connection exactly when the connect succeeds. |
| `ProxyServer.Mgr.GetUsedConnCnt` | highperformenceserver/examples/springsnail/mgr.cpp:82-85 | On the objects and maps: the entries of the used map, in an intact pool twice the number of busy connections. |
| `ProxyServer.ClosedMeansFreed` | highperformenceserver/examples/springsnail/mgr.cpp:150-312 | In an intact pool `process` returns CLOSED if and only if it freed its connection, and then exactly two used entries and one busy connection are gone. |
| `ProxyServer.HandledKeepsInv` | highperformenceserver/examples/springsnail/mgr.cpp:150-312 | Every event of a connection that is found keeps every object in one place, and an intact pool intact. |
| `ProxyServer.FailsIff` | highperformenceserver/examples/springsnail/mgr.cpp:163-305 | The call returns IOERR or CLOSED exactly if its `recv` or `send` meets an error or the end before the buffer is full or empty, told by the answers of the kernel alone. |
| `ProxyServer.FreedIff` | highperformenceserver/examples/springsnail/mgr.cpp:157-305 | When a connection is freed, as for `Process`; and a failure of the server is remembered until then. |
| `ProxyServer.BytesMove` | highperformenceserver/examples/springsnail/mgr.cpp:163-275 | An event moves bytes of one direction only: a READ receives from its end what the answers give, a WRITE sends to it what they take. |
| `ProxyServer.ReadIsArmed` | highperformenceserver/examples/springsnail/mgr.cpp:165-175 | Behind a read that did not fail the other end is armed for output exactly if bytes are pending for it. |
| `ProxyServer.WriteIsArmed` | highperformenceserver/examples/springsnail/mgr.cpp:196-212 | Behind a write that did not fail this end is armed for output as long as bytes are pending, and both ends for input when none are. |
| `ProxyServer.FailureIsArmed` | highperformenceserver/examples/springsnail/mgr.cpp:249-294 | When the server fails, the end of its client is armed for output. |
| `ProxyWorld.EventKeepsInv` | highperformenceserver/examples/springsnail/processpool.h:216-317 | Every event keeps every object in one place, with its bytes in order, and an intact pool stays intact if and only if the event is not stale. |
| `ProxyWorld.RunIntactIff` | highperformenceserver/examples/springsnail/processpool.h:200-319 | Over a whole run the pool is intact at every moment if and only if no event is stale when it is handled. |
| `ProxyWorld.StaleIff` | highperformenceserver/examples/springsnail/processpool.h:216-317 | An event of a watched descriptor is stale, in an intact pool, exactly when earlier events of its batch have freed the connection that used it and no client accepted since uses it. |
| `ProxyWorld.HiddenForever` | highperformenceserver/examples/springsnail/mgr.cpp:103-312 | A client whose connection is not found under its descriptor stays so over every continuation: nothing more is received from it nor sent to it. |
| `ProxyWorld.StaleEventHidesClient` | highperformenceserver/examples/springsnail/mgr.cpp:103-312 | One batch leads there from any state with a busy and an idle connection: an event frees the connection, the event of the other end is stale, its number is given to a client; that client is never served, whatever comes later. |
| `ProxyWorld.RunHidesClient` | highperformenceserver/examples/springsnail/processpool.h:200-319 | Two idle connections and two batches are enough for it: a client comes, then closes in one batch with an event of its server and the next client. |
| `ProxyWorld.RememberedIff` | highperformenceserver/examples/springsnail/mgr.cpp:231-305 | In every run what is remembered of a server is whether an event of it has met a failure since the connection was picked. |
| `ProxyWorld.FreedExactlyWhen` | highperformenceserver/examples/springsnail/mgr.cpp:150-312 | In every run a connection that was picked is freed exactly by a READ or WRITE of its client whose own `recv` or `send` meets an error or the end before the buffer is full or empty, or that comes when an earlier event of the server has met one since the pick; until then it stays as it is. |
| `ProxyWorld.FreeingReleases` | highperformenceserver/examples/springsnail/mgr.cpp:112-122 | Freeing closes, unwatches and forgets exactly the two descriptors of the connection, which keeps nothing of its client. |
| `ProxyWorld.ClientEventArms` | highperformenceserver/examples/springsnail/mgr.cpp:157-230 | What each event of a client leaves armed, by the bytes that are pending behind it. |
| `ProxyWorld.ServerEventArms` | highperformenceserver/examples/springsnail/mgr.cpp:231-306 | The same for a server; when it fails, its client is armed for output. |
| `ProxyWorld.TraceOfRun` | highperformenceserver/examples/springsnail/processpool.h:200-319 | The main loop of a child is such a run, from any state to the one it ends in. |
| `ProxyRun.RunBatch` | highperformenceserver/examples/springsnail/processpool.h:216-317 | On the objects and maps, the events of a batch, stale ones included, do step by step what the functions of events say. |
| `ProxyRun.RunChild` | highperformenceserver/examples/springsnail/processpool.h:200-319 | Over every run of the child: the pool starts with one idle connection for each connect that succeeds, and the objects, maps and bytes at the end are what the events make of them, one after the other; every object is in one place; the pool was intact throughout if and only if no event was stale. |
| `ProxyRun.ChildCanHideClient` | highperformenceserver/examples/springsnail/processpool.h:200-319 | With two connections built, a child can be led to leave a client unserved for ever. |
| `RoundRobin.Parent.Search` | highperformenceserver/examples/15/15-1processpool.h:307-316 | The loop terminates at the live child that comes next in the ring, or, if there is none, at a dead entry. |
| `RoundRobin.Parent.Dispatch` | highperformenceserver/examples/15/15-1processpool.h:305-328 | A live child is picked exactly when there is one, the next in the ring, and the counter moves behind it. |
| `RoundRobin.Parent.OnChildExit` | highperformenceserver/examples/15/15-1processpool.h:344-369 | Exactly the reaped children are marked, and the parent is told to stop exactly when none is left. |
| `RoundRobin.SearchOn` | highperformenceserver/examples/15/15-1processpool.h:308-316 | Passing an entry that is gone misses no live child. |
| `RoundRobin.LapsOf` | highperformenceserver/examples/15/15-1processpool.h:305-323 | In a window with the same live children there is a number of laps that each live child has, or exceeds by one. |
| `RoundRobin.Fair` | highperformenceserver/examples/15/15-1processpool.h:305-323 | Over such a window the counts of any two live children differ by at most one. |
| `RoundRobin.ServeWindow` | highperformenceserver/examples/15/15-1processpool.h:305-328 | So they do for the dispatches that the parent makes, from any counter. |
| `RoundRobin.RunParent` | highperformenceserver/examples/15/15-1processpool.h:293-392 | In every run each connection goes to the next child that is left at that time, the connections between two exits are shared out with counts that differ by at most one, and the loop ends early exactly when no child is left. |
| `RoundRobin.WindowOfRun` | highperformenceserver/examples/15/15-1processpool.h:293-392 | What a run logs between two exits of children is a window of dispatches from one counter. |
| `RoundRobin.GoneIff` | highperformenceserver/examples/15/15-1processpool.h:344-360 | A child is gone exactly if some event has reaped it. |
| `RoundRobin.PositionIsBehindLast` | highperformenceserver/examples/15/15-1processpool.h:305-323 | The search begins behind the child that the last new connection went to, or at the first child. |
| `PollScan.Server.Scan` | highperformenceserver/group_chat/server_poll.c:144-251 | The pass over the entries, with its append, swap-removals and re-arming, terminates and handles each client once, in some order. Those leave that hung up or failed to be received from. A client that stays is waited for if what mattered to it last was an output of its own, is to be sent the message of another client if that one's message was what mattered last, and is as before if nothing mattered. Each client that can be written to is sent the message it is to get at its place, and nobody else is sent one. |
| `PollScan.Server.Visit` | highperformenceserver/group_chat/server_poll.c:173-250 | What the branch for one client does to every client, by its own report and the result of `recv`: it leaves, or all others are to be sent its message, or it is sent its message and waited for, or nothing; after a swap-removal the same index is visited again. |
| `PollScan.Server.SwapRemove` | highperformenceserver/group_chat/server_poll.c:193-197 | The last entry takes the place, exactly the one client is gone. |
| `PollScan.Server.Append` | highperformenceserver/group_chat/server_poll.c:166-170 | A new client at the end, armed for input, with nothing reported. |
| `PollScan.Server.Rearm` | highperformenceserver/group_chat/server_poll.c:225-235 | Every other client is armed for output only, with the message of this one pending. |
| `PollScan.Server.Send` | highperformenceserver/group_chat/server_poll.c:240-249 | The client is sent the pending message and armed for input only again. |
| `PollScan.Server.Accept` | highperformenceserver/group_chat/server_poll.c:146-172 | At most one client joins, and none beyond the limit. |
| `PollScan.Server.Poll` | highperformenceserver/group_chat/server_poll.c:143-143 | For each entry exactly what is ready at its descriptor, out of what was asked for, and errors. |
| `PollScan.HandledSettles` | highperformenceserver/group_chat/server_poll.c:173-250 | Handling clients one after the other comes to what the order, the reports and the results of `recv` say about each client, as for `Scan`. |
| `PollScan.ToGetIsArmed` | highperformenceserver/group_chat/server_poll.c:225-249 | The message that is pending for a client not handled yet is that of the last client before it that spoke, or the one it had. |
| `PollScan.Serve` | highperformenceserver/group_chat/server_poll.c:141-253 | Over every run: distinct descriptors, the listener in front, each client armed for exactly one of input and output and for output only with a pending message. Each round handles every client that was there, and one that joins, exactly once; who leaves, who is waited for, who is to be sent whose message and whose message is sent to whom follow from the order, from what `poll` reported and from what was received, as for `Scan`. |

## Left out

- Memory reclamation: `delete`, `free` and destructors are only "no longer reachable from the container".
- The timer containers with callbacks that add or delete timers while `tick` runs.
- `expire` and the callback data of a heap timer, and the callback data of a list timer, are constants after construction; a heap timer's callback can only be cleared.
- TimeHeap.TimeHeap.AddTimer: at capacity 0 neither this nor `tick` is modelled, because doubling makes no room and both access `array[0]` of an empty array; a negative capacity, for which the allocation throws, is not modelled at all.
- Failed allocations, which throw in the timer heap, the thread pool and the proxy.
- Reaper.Serve: does not model the epoll set, because the local `epollfd` of `main` hides the static one and the callback's deletion goes to descriptor 0; a failed `accept`, which the code does not check; and SIGTERM, which ends the loop behind the batch.
- Reaper.Server.Handle: one alarm, accept, receive or end of batch is a step of its own, so a batch is a sequence of steps; the file `lst_timer.h` is the one of example 11-2.
- The bytes between a verdict and the next request on the same connection, and `init()` for a kept-alive connection.
- HttpConn.ParsersAgree: a request with a non-zero content length is followed only until its body is awaited (`AwaitsBody`). Behind that the code can call `do_request` once bytes of the body are there, at once when they came in the same batch; bodies are not modelled.
- HttpLength.ActsOnRequests: stops where a body is awaited, as ParsersAgree does.
- HttpConnServer.ServeRequest: stops where a body is awaited, too; and a failing `read` ends the connection outside this model.
- HttpConn.ConnChunkingIsIrrelevant: says nothing about requests that declare a non-zero content length, because the bytes of a body are scanned for lines when they arrive late; for them the outcome is `AwaitsBody`.
- `do_request`, `write`, `process_write` and the method HEAD, which `parse_request_line` never sets.
- The host is stored as in the code, but nothing further is stated about it; the code does not use it.
- `atol` is modelled with 64 bits and saturation, and its conversion to `int` as truncation; the model does not cover other data models.
- Liveness of the concurrent protocols: scheduling, fairness and that a signalled thread gets to run. After an `accept` error other than EAGAIN, or a failed `epoll_ctl`, the EPOLLONESHOT server does not arm its listener again.
- OneShot.ExclusiveUse: about descriptors of events; the read and write calls on a descriptor are not steps of their own.
- ThreadPool.NoneStranded: `m_stop` is not modelled; it is set only by the destructor.
- The counts of connections per thread and the CPU times that serv08 prints, and `web_child`.
- `read_clt` and `read_srv`, and `write_clt` and `write_srv`, are the same loop in the code, written twice; the model has each loop once and calls it from four methods.
- ProxyServer.Mgr.Process: which end is armed for which event is modelled, but not that buffered bytes are always sent in the end: each emptied buffer arms both ends for input, and a client may be freed with bytes still pending once the server is gone.
- ProxyRun.RunChild: server addresses, logging, signals and the pipe from the parent are left out, as is the parent's choice of the least busy child; an event of a descriptor that is not watched when a batch begins is ignored, because the kernel does not report it.
- RoundRobin.Parent.OnChildExit: SIGTERM and SIGINT, which only pass the signal on, and the rest of an epoll batch behind the one that stops the loop.
- PollScan.Server.Scan: the text of messages is left out: `wb` points into another client's receive buffer, which later receives may overwrite before it is sent, and client data is copied over that of a descriptor just closed. A failing `poll` and hang-ups without POLLERR or POLLRDHUP are not modelled.
- The shared-memory chat server, whose children keep a stale index after a swap-removal, and the talk server of chapter 9.
- `readn`, `writen`, `readline`, name resolution, interface lists, descriptor passing, configuration files, logging, the Qt interface and the single-call demos of chapters 5 to 7, which would only add easy members.

# A verified model of a small web server

The server is a multi-threaded HTTP server written in C++: each connection object parses requests
out of a fixed read buffer, builds a response and sends it with `writev`; worker threads take
connections from a queue and borrow database connections from a pool; idle connections are closed
by a sorted list of timers; the log goes through a blocking queue; a growable byte buffer is there
for input and output. The model covers the parts whose correctness does not show from one function.

What the server does by updating fields in place is a class here, whose methods are proved equal to
functions on values; the properties are then proved of those functions and of runs of them. What
several threads do is a state machine: every access to shared state is one step, and the steps of
all threads interleave freely.

| file | part of the server |
|---|---|
| `CStrings.dfy` | the C library functions the parser rests on |
| `HttpParser.dfy`, `HttpConn.dfy` | the request parser, as functions and as the object working in place |
| `ParserInvariant.dfy` | what every call keeps; where the parser writes |
| `ChunkInvariance.dfy`, `BodyCuts.dfy` | parsing in pieces against parsing at once; which cuts are answered |
| `Grammar.dfy`, `HeaderFields.dfy` | what lines, request lines, numbers and header fields look like, letter by letter; what a head with any fields tells |
| `ParserSafety.dfy` | exactly when a call faults or writes where it should not |
| `RequestRoundTrip.dfy`, `FormFields.dfy` | printed requests and forms read back |
| `Response.dfy`, `ResponseFraming.dfy` | building a response; reading it as RFC 7230 says |
| `Sender.dfy`, `Delivery.dfy` | the resumable send loop; a file on its way to the client |
| `TimerSchedule.dfy`, `TimerList.dfy`, `TimerClient.dfy` | the timer list on sequences and over runs; the linked nodes; runs of calls on the nodes |
| `ThreadCounts.dfy`, `WorkerPool.dfy`, `PoolService.dfy` | counting threads; thread pool and connection pool, interleaved; what becomes of the requests |
| `RingBuffer.dfy`, `QueueMonitor.dfy`, `QueueCalls.dfy` | the blocking queue: the circular array; the monitor; what one call does in it |
| `BufferRuns.dfy`, `ByteBuffer.dfy` | the byte buffer on values and over runs; the array in place |

## How the code is read

The sources do not compile as they stand. Spelling is repaired where the intent is plain: full-width
punctuation; `strbrk` is `strpbrk`; `strcasecmp` with three arguments is `strncasecmp`; `m_checked`
and `m_read_check` in `parse_line` are `m_checked_idx` and `m_read_idx`; `util_timer::next` is
declared (its declaration is inside a comment at timer/lst_timer.h:43); `init()`, which has no body,
sets indices and counters to zero, pointers to null, `m_linger` to false and the state to
`CHECK_STATE_REQUESTLINE`.

Logic is not repaired. Where it departs from what the server is for, the theorem is proved under the
exact condition that makes it true, or as an if-and-only-if, and a concrete input shows the failure:

- A body that arrives in parts: after `parse_content` answers `NO_REQUEST`, `process_read` scans the
  partial body for a line, which moves `m_checked_idx`, and the bytes scanned are asked for again
  (http/http_conn.cpp:181, :228, :421). `AnsweredExactly` and `PrintedAnsweredExactly` for any number of
  pieces, `SplitBodyExactly`, `SplitBodyWitness`.
- `write()` moves `m_iv` only on EAGAIN, starts `newadd` at zero in every call, and subtracts a
  cumulative count from a length already reduced (http/http_conn.cpp:760-805). `SentExactly`,
  `ResumeExactly`, `BadRuns`. `bytes_to_send` is set for files only, so an error page, though built
  correctly, is never sent (http/http_conn.cpp:735, :764). `WriteGiven`, `FirstCall`.
- `adjust_timer` looks for a new place only behind the next timer (timer/lst_timer.h:107-122).
  `AdjustExactly`, `AdjustWitness`; over runs `SortedExactly`. No timer gets lost and none fires early or
  twice whatever the new expiries: `EveryRunAccounts`, `EveryRunFiresOnce`.
- The worker releases its database connection and `connectionRAII` releases it again
  (threadpool/threadpool.h:134, CGImysql/sql_connection_pool.cpp:138-141). `ExclusiveExactly`,
  `ListedTwice`.
- A file whose size is no `int` gets a wrong Content-Length (http/http_conn.cpp:648, :726).
  `FileFramed`.
- Memory: on some inputs the C program leaves what the language guarantees, or its own line. None is
  excluded by a precondition. The parser then answers `Fault`, a code the source does not have, in
  exactly three cases: an `http://` target with no slash behind the host (null pointer), a length
  that, counted from a place the scan has reached, overflows an `int`, and a NUL that falls outside
  `m_read_buf`: in front of it, for a length below minus the size of the head, or right behind it, for
  a body that ends with the buffer. A negative length otherwise counts as complete at once, without
  fault, and the NUL lands inside the buffer, in front of the body (http/http_conn.cpp:342-347, :421-423).
  `CallFaultsExactly`, `CallSafeExactly`, `RunSafeExactly`, `EveryCutSafeExactly`, `BareHostWitness`,
  `NegativeLengthWitness`. The loops that copy the form fields stay in
  memory and in their arrays exactly when a '&' and then, ten bytes on, a NUL follow in memory and both
  fields are shorter than 100 bytes (http/http_conn.cpp:444-456). `Extract`. A POST without a body is
  answered with `m_string` null, through which they would read. `AnsweredWithoutBody`, `PostWithoutBody`.
- GetConnection answers NULL instead of waiting when the list looks empty
  (CGImysql/sql_connection_pool.cpp:67). `WithoutExactly`.

A bad request is answered with status 404, as in the code (http/http_conn.cpp:702). `atol` sticks at
the ends of `long`, and its value is cut to 32 bits when stored.

The connection object appears as three objects that share no field both write: `HttpConn` (parser),
`ResponseWriter` and `FileSender`. `GetRequest` stands where `process_read` goes on to `do_request`.
Results of `recv`, `writev`, `readv` and `write` are parameters: any number of bytes the call can
take or deliver (`writev`: at least one), or failure. In the pools a step is one access to shared
state; `sem_wait` returns only after a decrement; memory is sequentially consistent. In the monitor a
wait may end without notice, and any wait may fail, at any time.

The theorems about runs (`EveryRunFiresOnce`, `EveryRunAccounts`, `EveryRunKeepsInv`, `EveryRunLegal`,
`EveryRunIsFifo`, `Drains` and `Settles`) take an arbitrary list of operations or steps that are possible.
`EveryRunLists`, on the order of the timer list, is about runs whose new expiries are admissible;
`SortedExactly` says that those are the runs on which the order is kept.

## Model

| member | source | states |
|---|---|---|
| CStrings.AtolDecimal | http/http_conn.cpp:400 | reading a printed non-negative number with `atol` gives it back, up to the ends of `long` |
| CStrings.CStrFrame | http/http_conn.cpp:298-346 | a C string depends only on the bytes up to its NUL, so writes behind it do not change what the parser's library calls see |
| ParserInvariant.InitialInv | http/http_conn.h:104 | a fresh connection has the parser's invariant |
| ParserInvariant.ParseLineInv | http/http_conn.cpp:244-288 | `parse_line` passes over no CR or LF, stops where it says, and the look-back branch for a CR is never what ends a line |
| ParserInvariant.HomePageFits | http/http_conn.cpp:358-359 | appending "judge.html" to "/" stays within the line; there is no byte to spare exactly when one blank precedes the version |
| ParserInvariant.EditsStayInLine | http/http_conn.cpp:307-359 | every byte the request-line parser changes lies in the line or its two NULs |
| ParserInvariant.LineStepWritesInLine | http/http_conn.cpp:181-236 | handling a line changes no byte at or beyond `m_checked_idx` and none of an earlier line |
| ParserInvariant.ProcessReadInv | http/http_conn.cpp:168-236 | every call keeps `m_start_line <= m_checked_idx <= m_read_idx` and leaves no line break behind `m_checked_idx` |
| ParserInvariant.EveryRunKeepsInv | http/http_conn.cpp:168-236 | the same over every sequence of arrivals |
| ChunkInvariance.BadLineIsForever | http/http_conn.cpp:244-288 | outside the body a bad line stays bad whatever arrives: the answer is NO_REQUEST and the state does not move |
| ChunkInvariance.ScanStopsExactly | http/http_conn.cpp:181-288 | `parse_line` leaves a body untouched if and only if nothing of it has arrived or it begins with a byte that stops the scan |
| ChunkInvariance.OneCut | http/http_conn.cpp:168-431 | parsing `d1`, then `d2`, ends in the same code and state as parsing `d1 + d2`, when the body bytes are seen together |
| ChunkInvariance.AnyCut | http/http_conn.cpp:168-431 | for every split of the stream into arrivals under that condition: same code, indices, fields and buffer as one call |
| ChunkInvariance.BodilessAnyCut | http/http_conn.cpp:168-288 | a stream in which no body begins meets that condition at every split |
| ChunkInvariance.CutsAgree | http/http_conn.cpp:168-431 | two splits of one stream agree with each other |
| ChunkInvariance.SplitBodyExactly | http/http_conn.cpp:181-228 | what a split body costs: the second call is satisfied only by as many more bytes as the first call scanned, so a body of the announced length is answered if and only if the scan stopped at once |
| BodyCuts.ScannedAway | http/http_conn.cpp:181-228 | a call that sees part of a body and scans it waits, and from then on asks for more than the body has |
| BodyCuts.AnsweredExactly | http/http_conn.cpp:168-431 | for every split of a stream whose body has exactly the announced length: it is answered if and only if, at every call, the body bytes are first seen together |
| BodyCuts.WholeExactly | http/http_conn.cpp:168-431 | for a body that does not begin with a line break, that condition holds if and only if no arrival ends inside the body |
| BodyCuts.AnsweredUnlessCut | http/http_conn.cpp:168-431 | so such a stream is answered if and only if no arrival ends inside the body |
| BodyCuts.PrintedAnsweredExactly | http/http_conn.cpp:168-431 | both, for every printable request with a body, in whatever arrivals |
| ParserSafety.HeadFaultsExactly | http/http_conn.cpp:181-215 | in the head a call faults if and only if the next line is whole, is the request line and is such a line |
| ParserSafety.ContentExactly | http/http_conn.cpp:418-431 | one look at the body: exactly when it faults, when it is answered, and where the NUL lands; at or behind the body's start if and only if the length is not negative |
| ParserSafety.BodyFaultsExactly | http/http_conn.cpp:181-229 | the body part of a call faults if and only if the length, from the end of the last whole line, overflows, or the NUL is outside the buffer |
| ParserSafety.CallFaultsExactly | http/http_conn.cpp:168-236 | `process_read` faults, from any state, if and only if one of three conditions on that state holds |
| ParserSafety.HeadWrites | http/http_conn.cpp:181-215 | in the head a call writes only from `m_start_line` on and before `m_checked_idx` |
| ParserSafety.ScanWrites | http/http_conn.cpp:228-288 | a body that is not complete is written only where the scan has gone over it |
| ParserSafety.BodyCall | http/http_conn.cpp:216-229 | the body part of a call: an answer writes one NUL at text + length, anything else only what the scan covers |
| ParserSafety.CallSafeExactly | http/http_conn.cpp:168-236 | a call neither faults nor writes outside its lines and the end of the body it received if and only if its state is admissible, which can be checked before the call |
| ParserSafety.RunSafeExactly | http/http_conn.cpp:168-236 | over every run of arrivals: all calls are safe if and only if each is made in an admissible state, and then the answer is no fault |
| ParserSafety.EveryCutSafeExactly | http/http_conn.cpp:168-236 | for a stream that leaves room in the buffer, with a length not within 2048 of INT_MAX: however it is cut, every call is safe if and only if the request line is not bare and the length not negative |
| ParserSafety.NewConnectionSafeExactly | http/http_conn.cpp:168-236 | the same for a new connection |
| ParserSafety.BareHostWitness | http/http_conn.cpp:340-347 | `GET http://a HTTP/1.1` faults |
| ParserSafety.NegativeLengthWitness | http/http_conn.cpp:396-431 | a request with length -5 is answered, and the NUL replaces the 5 in that header line |
| HttpConnection.HttpConn.constructor | http/http_conn.h:104 | the object starts in the initial state of the model |
| HttpConnection.HttpConn.Receive | http/http_conn.cpp:49-80 | received bytes are stored behind the others, nothing else changes |
| HttpConnection.HttpConn.ParseLine | http/http_conn.cpp:244-288 | working in place gives the status, index and buffer of the model's line scan |
| HttpConnection.HttpConn.ParseRequestLine | http/http_conn.cpp:294-364 | the in-place cuts, pointer moves and `strcat` are together the edits and fields that the line as a whole calls for |
| HttpConnection.HttpConn.SplitRequestLine | http/http_conn.cpp:298-363 | the same for the body after the entry test |
| HttpConnection.HttpConn.SplitMethod | http/http_conn.cpp:309-320 | from the method on |
| HttpConnection.HttpConn.ReadMethod | http/http_conn.cpp:309-320 | the method of a C string, case-insensitively, or none |
| HttpConnection.HttpConn.IsHttp11 | http/http_conn.cpp:331-335 | whether the version behind the second blank is HTTP/1.1 |
| HttpConnection.HttpConn.SplitTarget | http/http_conn.cpp:324-330 | from the first blank on |
| HttpConnection.HttpConn.ParseVersion | http/http_conn.cpp:330-355 | from the second blank on |
| HttpConnection.HttpConn.SkipSchemes | http/http_conn.cpp:340-351 | the two prefix tests and `strchr` on the buffer leave `m_url` where the target as a whole says, or null, and hand a null pointer on exactly when it says so |
| HttpConnection.HttpConn.TakeTarget | http/http_conn.cpp:353-363 | the end: `m_url` at the path, "/" expanded in place |
| HttpConnection.HttpConn.StrCat | http/http_conn.cpp:359 | `strcat` writes exactly the source and its NUL behind the destination string |
| HttpConnection.HttpConn.ParseHeaders | http/http_conn.cpp:368-415 | a header line changes exactly the field it names; the blank line decides about the body |
| HttpConnection.HttpConn.ParseContent | http/http_conn.cpp:418-431 | a complete body is NUL-terminated in place and pointed at, an incomplete one changes nothing |
| HttpConnection.HttpConn.Handle | http/http_conn.cpp:191-233 | a line goes to the parser of the current state |
| HttpConnection.HttpConn.ProcessRead | http/http_conn.cpp:168-236 | the loop terminates and ends in the code and state of the two-phase model |
| Grammar.VerbExactly | http/http_conn.cpp:309-320 | the methods known are GET and POST, in letters of either case, and no others |
| Grammar.PathExactly | http/http_conn.cpp:340-354 | `m_url` is left at k if and only if k is the target's leading slash, or the first slash behind the scheme; a null pointer is handed on if and only if the target is `http://` and has no slash from there on |
| Grammar.PathOfSlash | http/http_conn.cpp:340-359 | the path of a target that begins with a slash and is longer is the target |
| Grammar.RequestTaken | http/http_conn.cpp:294-364 | what is stored for an accepted line: the verb, the places of the two NULs and of the path, and whether "judge.html" is appended |
| Grammar.RequestLineExactly | http/http_conn.cpp:294-364 | `parse_request_line` on every line: it succeeds, with that method, if and only if the line is GET or POST, blanks, target, blanks, HTTP/1.1, the target having a path; it faults if and only if such a line has `http://`, a host and no path; it answers BAD_REQUEST on all others |
| Grammar.BadRequestExactly | http/http_conn.cpp:168-236 | a call answers BAD_REQUEST if and only if the next line is whole, is the request line and is neither of the two; and never INTERNAL_ERROR |
| Grammar.LineExactly | http/http_conn.cpp:244-288 | `parse_line` by the place of the first CR or LF: where it stops, with which status, and which two bytes become NUL |
| Grammar.AtolExactly | http/http_conn.cpp:400 | `atol` reads white space, a sign and digits, up to the first byte that is none, and sticks at the ends of `long` |
| Grammar.ToIntExactly | http/http_conn.cpp:400 | what is stored in an `int` is in its range and equal modulo 2^32 |
| HeaderFields.FieldExactly | http/http_conn.cpp:368-415 | what a header line is: Connection, keep-alive or not; Content-length, with its number; Host, with the place of its value; in letters of either case. A line with any other name tells nothing |
| HeaderFields.LengthIsOne | http/http_conn.cpp:396-401 | a line announces one length |
| HeaderFields.HostAtOne | http/http_conn.cpp:403-408 | the value of a Host line has one place |
| HeaderFields.FieldsPass | http/http_conn.cpp:368-415 | any list of header lines in any order: the keep-alive flag is set if and only if some Connection line says so, the length and the host are those of the last line that has one, no other field changes |
| HeaderFields.HeadExactly | http/http_conn.cpp:168-415 | so for the head of every request with an acceptable request line and any header lines, from a new connection to the blank line; a body is looked for if and only if a length other than zero was announced |
| RequestRoundTrip.ParsePrinted | http/http_conn.cpp:168-431 | any printable request that fits the buffer parses back to its method, path, keep-alive flag, host, length and body |
| RequestRoundTrip.SplitPrintedBody | http/http_conn.cpp:181-228 | a printed request whose body arrives in two parts and does not begin with a line break goes unanswered, although the same bytes in one call are a request |
| RequestRoundTrip.SplitBodyWitness | http/http_conn.cpp:181-228 | a concrete POST that is complete and not answered |
| FormFields.FormIsUnique | http/http_conn.cpp:447-456 | the two loops can stop in one place only |
| FormFields.ExtractName | http/http_conn.cpp:447-450 | the first loop copies up to the first '&', unless it would leave memory or array first |
| FormFields.ExtractPassword | http/http_conn.cpp:453-456 | the second loop copies up to the next NUL, likewise |
| FormFields.Extract | http/http_conn.cpp:444-456 | the loops stay in the memory and the two arrays if and only if the form is there and both fields are shorter than 100; then the arrays hold exactly the name and the password, NUL-terminated |
| FormFields.FormFound | http/http_conn.cpp:447-456 | a posted form in memory is one on which the loops take its own user name and password |
| FormFields.PostedFormRecovered | http/http_conn.cpp:294-456 | from the wire to the fields: after parsing the POST, the loops find the user name and the password that were sent |
| FormFields.CallBody | http/http_conn.cpp:168-431 | `m_string` is set by the call that takes a body as received and by no other |
| FormFields.AnsweredWithoutBody | http/http_conn.cpp:168-431 | over every run of arrivals: an answered request leaves `m_string` null if and only if the answer came at the end of the head, and then the length is zero |
| FormFields.PostWithoutBody | http/http_conn.cpp:371-381 | every printable POST without a body is answered so, with `cgi` set |
| Response.AddResponseMeans | http/http_conn.cpp:611-639 | what is in the buffer stays; the text is appended whole or not at all, and the index stays at most WRITE_BUFFER_SIZE - 2 |
| Response.ResponseWriter.Add | http/http_conn.cpp:611-639 | the in-place formatter does what the model's does, truncated attempt included |
| Response.ResponseWriter.VsnPrintf | http/http_conn.cpp:624 | at most size - 1 bytes and a NUL are written, nothing elsewhere |
| Response.ResponseWriter.AddFields | http/http_conn.cpp:648-677 | the three calls whose answers are dropped |
| Response.ResponseWriter.AddErrorPage | http/http_conn.cpp:690-718 | an error page, as far as it fits |
| Response.ResponseWriter.Process | http/http_conn.cpp:685-755 | for every result, the buffer, the answer and what `write` is given |
| ResponseFraming.HeadRead | http/http_conn.cpp:641-677 | head and body read back under sections 3.1.2 and 3.3.2 of RFC 7230 as that status and body if and only if the announced length is the body's |
| ResponseFraming.HeadWritten | http/http_conn.cpp:611-677 | into an empty buffer every head fits |
| ResponseFraming.PageFramed | http/http_conn.cpp:690-718 | an error page is complete and reads back |
| ResponseFraming.ErrorsFramed | http/http_conn.cpp:690-718 | each of the three error results gives a message with its status and its page |
| ResponseFraming.FileFramed | http/http_conn.cpp:720-737 | header and non-empty file are a message with status 200 and the file as body if and only if the size is an `int`; the byte count given to `write` is that of both |
| ResponseFraming.RepliesExactly | http/http_conn.cpp:641-737 | every reply byte for byte: status, reason phrase, length, Connection line by the keep-alive flag, and page |
| ResponseFraming.NumbersExactly | http/http_conn.cpp:648-659 | numbers are printed without leading zeros, a negative one with its sign |
| ResponseFraming.NegativeLength | http/http_conn.cpp:648-659 | a length printed with a sign is not read as one |
| ResponseFraming.OthersRefused | http/http_conn.cpp:738-748 | every other result, an empty file among them, makes `process_write` fail, whatever the buffer holds; into an empty buffer the rest succeeds |
| Sender.StartExact | http/http_conn.cpp:724-737 | what `process_write` sets up stands for header, then file, none sent |
| Sender.FileSender.Write | http/http_conn.cpp:757-837 | the loop on the fields is one call of the model, for every sequence of answers |
| Sender.ResumeExactly | http/http_conn.cpp:787-806 | a call cut short by EAGAIN leaves `m_iv` standing for exactly the rest if and only if it was resumable |
| Sender.LoopCounts | http/http_conn.cpp:771-836 | in every call, whatever the kernel answers, sent plus remaining is the length of the response, and the call finishes exactly when nothing remains |
| Sender.EndsExactly | http/http_conn.cpp:771-836 | a call with something to send, for any answers of the kernel: it finishes when the count is used up, waits if and only if it does not finish and `writev` failed with EAGAIN, fails if and only if it does not finish and the error is another; `m_iv` is where it was unless it waits |
| Sender.WaitsExactly | http/http_conn.cpp:787-806 | what `m_iv` is after EAGAIN, for any answers before it |
| Sender.FailedRun | http/http_conn.cpp:757-837 | a run whose last call meets another error ends there: closed if and only if something remains, the counts say how much has gone, and after good calls that is a prefix of the response |
| Sender.RunCounts | http/http_conn.cpp:757-837 | the same over every run of calls |
| Sender.SentExactly | http/http_conn.cpp:757-837 | over every run the client has a prefix of header ++ file with the rest ready, and all of it on completion, if and only if every call was good |
| Sender.BadRuns | http/http_conn.cpp:757-837 | three runs that show each condition is needed |
| Delivery.FileDelivered | http/http_conn.cpp:685-837 | whenever `write` finishes, header and file have left byte for byte if and only if every call was good; then the client has a message with status 200 and the file as its body |
| Delivery.WriteGiven | http/http_conn.cpp:685-769 | what `write` starts with for every result `process_write` accepts: no count for an error page, for a file the number of bytes as an int |
| Delivery.FirstCall | http/http_conn.cpp:757-837 | from there `write` returns without sending if and only if the result is an error page, or a file whose count, as an int, is zero; with a negative count it finishes after the first successful `writev` |
| TimerSchedule.AddMeans | timer/lst_timer.h:81-101 | a timer goes behind all that expire no later and before all that expire later; sorted, and one more in the multiset |
| TimerSchedule.AddExactly | timer/lst_timer.h:81-101 | on any list, in order or not: a new timer goes before the first that expires later |
| TimerSchedule.RemoveMeans | timer/lst_timer.h:126-158 | deleting takes out that one timer and keeps the order |
| TimerSchedule.AdjustMultiset | timer/lst_timer.h:104-123 | adjusting loses and makes up nothing, whatever the new expiry |
| TimerSchedule.AdjustExactly | timer/lst_timer.h:104-123 | adjusting equals delete-and-add, and keeps the list sorted, if and only if the new expiry is at least the successor's (or, for the last timer, at least its predecessor's) |
| TimerSchedule.AdjustPlace | timer/lst_timer.h:104-123 | on any list: the last timer, and one that now expires before the head, stay; any other goes behind its successor and from there before the first that expires later |
| TimerSchedule.AdjustWitness | timer/lst_timer.h:104-123 | expiries 1 and 10, the first moved to 5, end as 10, 5 |
| TimerSchedule.TickMeans | timer/lst_timer.h:162-189 | fired are exactly the timers with expiry at or before now, in ascending order; the rest keep theirs |
| TimerSchedule.ListIsUnique | timer/lst_timer.h:81-221 | a queue of timers has one list only: expiry, then order of placement, leaves no choice |
| TimerSchedule.EveryRunLists | timer/lst_timer.h:81-221 | after every run of add, adjust, delete and tick the list is the stable priority queue of the same run |
| TimerSchedule.EveryRunFiresOnce | timer/lst_timer.h:81-221 | over every run, whatever the new expiries, no timer fires early, none twice, and none that has fired is still listed |
| TimerSchedule.EveryRunAccounts | timer/lst_timer.h:81-221 | over every run, whatever the new expiries, the timers listed, fired and deleted are together exactly those added |
| TimerSchedule.SortedExactly | timer/lst_timer.h:81-221 | over a run the list is always in order if and only if every new expiry is admissible when given |
| TimerSchedule.FiresAtFirstDueTick | timer/lst_timer.h:162-189 | a timer neither deleted nor adjusted fires at the first tick at or after its expiry and not before |
| TimerSchedule.FiresExactly | timer/lst_timer.h:162-189 | after any run, in order or not: a listed timer fires at the next tick if and only if it and all that stand before it are due |
| TimerSchedule.EveryRunFromEmpty | timer/lst_timer.h:66-221 | every run from an empty list: nothing fired early or twice, every timer accounted for; with admissible expiries the list is the reference queue in order |
| TimerSchedule.OperationsRelabel | timer/lst_timer.h:81-221 | the operations look at expiries only: what holds of runs on names holds of the node list |
| TimerList.ChainSpliced | timer/lst_timer.h:194-221 | relinking the node and its two neighbours, and nothing else, makes a well-formed chain of the longer list |
| TimerList.ChainWithout | timer/lst_timer.h:119-157 | the same for unlinking |
| TimerList.SortTimerList.constructor | timer/lst_timer.h:66 | an empty list |
| TimerList.SortTimerList.AddTimer | timer/lst_timer.h:81-101 | links stay well formed in both directions; the timers are those of `Add`; a null pointer changes nothing |
| TimerList.SortTimerList.AddAfter | timer/lst_timer.h:194-221 | the traversal inserts where the model says, searching behind the given node only |
| TimerList.SortTimerList.LinkBetween | timer/lst_timer.h:203-206 | the four pointer writes insert the node between two |
| TimerList.SortTimerList.LinkLast | timer/lst_timer.h:214-220 | the writes that append it, `tail` included |
| TimerList.SortTimerList.AdjustTimer | timer/lst_timer.h:104-123 | links stay well formed; the timers are those of `Adjust` |
| TimerList.SortTimerList.DropInner | timer/lst_timer.h:119-120 | a node between two others leaves the chain; its own links stay |
| TimerList.SortTimerList.DelTimer | timer/lst_timer.h:126-158 | in each of the five cases exactly that node leaves the chain |
| TimerList.SortTimerList.Tick | timer/lst_timer.h:162-189 | calls back the due timers in order and leaves the others linked, with `tail` free to be stale when none is left |
| TimerList.SortTimerList.DropHead | timer/lst_timer.h:180-186 | the head leaves, the rest stays linked |
| TimerClient.Client.constructor | timer/lst_timer.h:66 | no timers |
| TimerClient.Client.Add | timer/lst_timer.h:81-101 | a connection's new timer: the linked list is the schedule's next list, under the connections' names |
| TimerClient.Client.Postpone | timer/lst_timer.h:104-123 | the same for any new expiry, set on the node before `adjust_timer` |
| TimerClient.Client.Delete | timer/lst_timer.h:126-158 | the same for deleting |
| TimerClient.Client.Tick | timer/lst_timer.h:162-189 | the same for a tick; the callbacks are for the schedule's due connections in its order |
| TimerClient.Client.Do | timer/lst_timer.h:81-221 | any operation; the callbacks it makes are what the schedule's log gains |
| TimerClient.Run | timer/lst_timer.h:81-221 | any run on the nodes, whatever the new expiries, ends linked, shows the schedule's list and makes the schedule's callbacks; with admissible expiries it ends sorted |
| WorkerPool.TotalUpdate | threadpool/threadpool.h:82-136 | a step of one thread changes the thread counts by its own share only |
| WorkerPool.JobsAppend | threadpool/threadpool.h:82-97 | every step of `append` keeps: queue length = semaphore + pushed-not-posted + waited-not-popped; length bound; taken ++ queued = accepted; one lock holder |
| WorkerPool.JobsTake | threadpool/threadpool.h:112-128 | every step of `run` up to the connection keeps the same, and does not enter the empty branch |
| WorkerPool.ConnsAcquire | CGImysql/sql_connection_pool.cpp:63-84 | every step of GetConnection keeps: list length = semaphore + put-back-not-posted + waited-not-popped; counters; one lock holder |
| WorkerPool.PopsSomething | CGImysql/sql_connection_pool.cpp:75-76 | who is at the pop finds the list not empty |
| WorkerPool.ConnsRelease | CGImysql/sql_connection_pool.cpp:87-103 | every step of ReleaseConnection keeps the same |
| WorkerPool.BalanceAcquire | CGImysql/sql_connection_pool.cpp:63-84 | acquiring conserves connections: listed and held together are the initial ones and those line 134 put back |
| WorkerPool.BalanceRelease | CGImysql/sql_connection_pool.cpp:87-103 | releasing conserves them too |
| WorkerPool.NextKeepsInv | threadpool/threadpool.h:82-136 | any step of any thread keeps the whole invariant |
| WorkerPool.EveryRunKeepsInv | threadpool/threadpool.h:82-136 | every interleaving keeps it |
| WorkerPool.InitialInv | threadpool/threadpool.h:45-69 | it holds at the start, for any number of appenders and at least one worker |
| WorkerPool.ReachedInv | threadpool/threadpool.h:82-136 | so it holds in every reachable state |
| WorkerPool.DispatchedOnce | threadpool/threadpool.h:82-128 | in every run requests are taken once each in acceptance order, at most max_requests + 1 are queued, and no worker finds the queue empty |
| WorkerPool.BoundAttained | threadpool/threadpool.h:86 | for every max_requests a state with max_requests + 1 queued is reached |
| WorkerPool.CountersMatch | CGImysql/sql_connection_pool.cpp:77-96 | whenever the pool's lock is free FreeConn is the list's length and FreeConn + CurConn is MaxConn |
| WorkerPool.ExclusiveExactly | CGImysql/sql_connection_pool.cpp:130-141 | in every reachable state no connection is listed or held twice if and only if line 134 of the worker has released none |
| WorkerPool.SingleReleaseExclusive | CGImysql/sql_connection_pool.cpp:130-141 | with one release per acquisition connections are exclusive and none is lost |
| WorkerPool.ListedTwice | threadpool/threadpool.h:130-134 | the worker as coded reaches a state with one connection listed twice and CurConn at -1 |
| WorkerPool.NoDeadlock | threadpool/threadpool.h:112-136 | while a request is queued or under way some thread can take a step that is not an arrival, workers waiting for a connection included |
| WorkerPool.StuckIsIdle | CGImysql/sql_connection_pool.cpp:63-103 | if nobody can move, all threads rest, every accepted request was taken and every connection is back |
| WorkerPool.MeasureFalls | threadpool/threadpool.h:82-136 | every step that is not an arrival reduces the work left |
| WorkerPool.Drains | threadpool/threadpool.h:112-136 | without arrivals every schedule ends within the measure, and where it ends the backlog has been dispatched |
| WorkerPool.HeldAtMost | CGImysql/sql_connection_pool.cpp:63-103 | no more connections are held than there are workers |
| WorkerPool.WithoutExactly | CGImysql/sql_connection_pool.cpp:67-68 | for either worker, the coded one included: some run processes a request without a connection if and only if there are more workers than connections |
| PoolService.NextServes | threadpool/threadpool.h:112-136 | every step of any thread keeps: the requests taken, null ones aside, are those processed and those in a worker's hands, each as often |
| PoolService.EveryRunServes | threadpool/threadpool.h:112-136 | every interleaving keeps it |
| PoolService.ServedOnce | threadpool/threadpool.h:119-134 | so in every reachable state |
| PoolService.AllServed | threadpool/threadpool.h:119-134 | where a run comes to rest the requests processed are those accepted, null ones aside, each as often |
| PoolService.AppendCall | threadpool/threadpool.h:82-97 | `append` refuses a request if and only if more than max_requests are queued when it has the lock; else it is queued last, and posted once |
| PoolService.TakeCall | threadpool/threadpool.h:112-128 | a worker that is posted to takes the first request, and drops it if it is null |
| PoolService.GetCall | CGImysql/sql_connection_pool.cpp:63-84 | GetConnection gives null if and only if it sees the list empty, else the first connection |
| PoolService.ReleaseCall | CGImysql/sql_connection_pool.cpp:87-103 | ReleaseConnection puts the connection last, counts it and posts once |
| PoolService.FinishCall | threadpool/threadpool.h:130-134 | the end of a request: processed once, the connection put back twice by the coded worker, once without line 134, not at all if there is none |
| RingBuffer.PushAppends | log/block_queue.h:59-61 | for every capacity, pushing keeps back congruent to front + size and appends to the cells read cyclically |
| RingBuffer.TakeRemoves | log/block_queue.h:85-87 | taking keeps it and removes the first |
| RingBuffer.BlockQueue.constructor | log/block_queue.h:24-43 | an empty queue, both indices at -1 |
| RingBuffer.BlockQueue.Create | log/block_queue.h:24-43 | no queue for a size that is not positive |
| RingBuffer.BlockQueue.Push | log/block_queue.h:48-66 | refuses exactly when full, else appends |
| RingBuffer.BlockQueue.Take | log/block_queue.h:84-87 | gives the first and leaves the rest |
| QueueMonitor.NextKeepsInv | log/block_queue.h:48-122 | every step of any thread, spurious and failed waits included, keeps the monitor's invariant |
| QueueMonitor.EveryRunLegal | log/block_queue.h:48-122 | in every interleaving the calls in lock order are a legal history of a bounded FIFO: popped ++ still held = pushed |
| QueueMonitor.NewQueueLegal | log/block_queue.h:24-122 | in every state a new queue of any capacity comes to: a legal history for that capacity, conserved items, no lost wake-up |
| QueueMonitor.NewQueueReached | log/block_queue.h:24-43 | for every positive capacity and any number of threads there is such a start |
| QueueMonitor.ReplayConserves | log/block_queue.h:48-122 | a legal history conserves items and never exceeds the capacity |
| QueueMonitor.NoLostWakeUp | log/block_queue.h:53-77 | with the mutex free, a thread that waits without notice waits at an empty queue |
| QueueMonitor.CastCounts | log/block_queue.h:63 | after the broadcast nobody waits without notice |
| QueueMonitor.StuckIsEmpty | log/block_queue.h:69-122 | if nobody can go on, the mutex is free and whoever waits waits at an empty queue |
| QueueMonitor.Settles | log/block_queue.h:48-122 | left to itself the queue comes to such a state within a bounded number of steps, under every schedule |
| QueueCalls.EveryCallProper | log/block_queue.h:48-122 | in every interleaving, every call a thread comes back from: a push has pushed or been refused, without waiting; a plain `pop` has popped or, if and only if a wait failed, given up, and never found the queue empty; a timed `pop` waits at most once, and finds the queue empty only after a wait that did not fail |
| QueueCalls.NewQueueCallsProper | log/block_queue.h:24-122 | so for every thread and every run of a new queue |
| QueueCalls.EmptyWaits | log/block_queue.h:74-77 | a thread that gets the mutex for either `pop` on an empty queue comes to wait with the mutex released, the plain one again after each wake-up |
| QueueCalls.TimedFindsEmpty | log/block_queue.h:100-115 | the timed one looks once more after its wait and then comes back |
| QueueCalls.PopTakes | log/block_queue.h:69-122 | where there is an item, either takes the first |
| QueueCalls.FailedGivesUp | log/block_queue.h:77-81 | a failed wait ends the call and leaves the queue alone |
| QueueCalls.PushCall | log/block_queue.h:48-66 | a whole push: refused if and only if the queue is full, else the item is last; everybody who waits is woken either way |
| QueueCalls.WaitEnds | log/block_queue.h:77-105 | a wait may end, or fail, at any time |
| BufferRuns.EnsureMeans | buffer/buffer.cpp:81-86 | room for what was asked, by growing or by shifting, with the readable bytes unchanged |
| BufferRuns.EnsureExactly | buffer/buffer.cpp:81-142 | byte by byte: the store as it was, or grown behind its end by zero bytes, or with the readable bytes moved to the front |
| BufferRuns.RetrieveAllMeans | buffer/buffer.cpp:37-41 | a store of the same size, zero throughout, all of it writable |
| BufferRuns.EnsureSize | buffer/buffer.cpp:131-142 | the store grows only to within twice what it then has to hold |
| BufferRuns.AppendMeans | buffer/buffer.cpp:70-75 | appending appends |
| BufferRuns.ReadFdMeans | buffer/buffer.cpp:88-110 | whatever amount `readv` delivers, all of it becomes readable in order, across the spill |
| BufferRuns.ApplyMeans | buffer/buffer.cpp:27-142 | each operation: what comes out followed by what is readable is what was readable followed by what goes in |
| BufferRuns.EveryRunIsFifo | buffer/buffer.cpp:27-142 | over every run removed ++ readable = added, and the store is at most the larger of its first size and twice the peak |
| BufferRuns.CapacityAttained | buffer/buffer.cpp:131-133 | from every first size a run attains twice the peak |
| ByteBuffer.Buffer.constructor | buffer/buffer.cpp:10 | an empty buffer |
| ByteBuffer.Buffer.Retrieve | buffer/buffer.cpp:27-30 | moves the read position only |
| ByteBuffer.Buffer.RetrieveUntil | buffer/buffer.cpp:32-35 | the read position ends at the given place |
| ByteBuffer.Buffer.RetrieveAll | buffer/buffer.cpp:37-41 | zeroes the array and both positions |
| ByteBuffer.Buffer.RetrieveAllToStr | buffer/buffer.cpp:43-47 | returns exactly the bytes that were readable |
| ByteBuffer.Buffer.HasWritten | buffer/buffer.cpp:57-59 | moves the write position only |
| ByteBuffer.Buffer.Append | buffer/buffer.cpp:70-75 | the array in place is the model's, whichever way room was made |
| ByteBuffer.Buffer.AppendBuffer | buffer/buffer.cpp:77-79 | appends another buffer's readable bytes and leaves that buffer alone |
| ByteBuffer.Buffer.EnsureWriteable | buffer/buffer.cpp:81-86 | the room is there |
| ByteBuffer.Buffer.MakeSpace | buffer/buffer.cpp:131-142 | grows, or shifts; never copies a range onto itself |
| ByteBuffer.Buffer.Shift | buffer/buffer.cpp:136-139 | the overlapping forward copy delivers the bytes as they were |
| ByteBuffer.Buffer.Resize | buffer/buffer.cpp:133 | old bytes kept, new ones zero |
| ByteBuffer.Buffer.ReadFd | buffer/buffer.cpp:88-110 | for every amount delivered, and for failure |
| ByteBuffer.Buffer.WriteFd | buffer/buffer.cpp:112-121 | for every amount taken, and for failure |

## Left out

- main.cpp, epoll registration, signals and sockets: system calls. `read_once` is reduced to storing bytes behind the ones already there.
- `do_request`: file lookup, `stat`, `mmap`, page routing and the building of `m_real_file`; flat branching over the file system.
- MySQL calls, SQL texts, `initmysql_result` and the login and registration pages.
- The threads' end: `m_stop`, the destructors and `DestroyPool`.
- log/log.cpp and log/log.h.
- lock/locker.h as a component: semaphores, mutexes and condition variables are primitives of the steps.
- `m_version`, which nothing reads after `parse_request_line`.
- What a client makes of the Connection field in responses: `keep_alive` is not the token that the parser looks for (http/http_conn.cpp:389, :670), and the reader in `ResponseFraming` ignores it; `RepliesExactly` says what is written.
- What callbacks of timers do, and the freeing of nodes: a node that leaves the list is not looked at again.
- One request queued twice at the same time: each request in the pool has a `mysql` field of its own, as when a socket is armed for one event at a time.
- Failures of `pthread_*` and `sem_*` calls other than waits on the condition variable.
- The deadline of the timed `pop`: its wait may time out at any moment.
- Sender.SentExactly: runs in which every cut-short call ends with EAGAIN; the call after which nothing follows, on another error, is in `FailedRun`. Files are not empty, as for `process_write`.
- Sender.FileSender.Write: `unmap`, `modfd` and the `init()` of a kept connection are not modelled; what is returned is.
- The pools and the monitor are modelled on values, not as classes: what matters there is the order of steps of different threads, and each step's whole new state is given by a function.
- ParserSafety.EveryCutSafeExactly: for a buffer filled to its last byte, or a length within 2048 of INT_MAX, whether a call is safe can depend on where the stream is cut; `RunSafeExactly` gives the condition for each such cut.
- HttpConnection.HttpConn.Receive: one successful `recv` only; the loop of `read_once`, its error results and its refusal when the buffer is full are not modelled, so arrivals are assumed to fit.
- TimerList.SortTimerList.AddTimer: a timer whose links are null, as its constructor leaves them; the source does not reset them.
- ByteBuffer.Buffer.HasWritten: a length within the writable room, which the source does not check.
- ByteBuffer.Buffer.AppendBuffer: two different buffers, as appending a buffer to itself reads what is being moved.
- ByteBuffer.Buffer.Append: a string is a value; the assertion that the pointer is not null has no counterpart.

# A verified model of the calculator server

The server speaks a small subset of HTTP/1.1 over persistent TCP connections, on one thread, with
`poll` and non-blocking sockets. This project models the parts that are hard to get right and proves,
in Dafny, what they promise:

* the incremental request parser: a buffer with a consumed prefix, a search that resumes where it
  stopped, lazy compaction, a half-parsed request waiting for its body;
* the connection: an Active / Closing / Draining / Closed machine that composes the parser, a handler,
  an output buffer with partial writes, backpressure, half-close, lingering close and timeouts;
* the codecs at the edges: response serializer and Content-Length reader, percent and query decoding,
  Content-Length accumulation, 64-bit arithmetic.

`dafny verify dfyconfig.toml` checks the whole project.

## How it is put together

| file | what it holds |
|---|---|
| `Text.dfy` | searching, trimming, quoting, decimal notation |
| `Messages.dfy`, `Wording.dfy` | requests, responses, limits, framing errors; the error texts |
| `HeadGrammar.dfy` | request line, field lines, body length: parsers, printers, and their agreement |
| `Framing.dfy` | the meaning of a byte stream: a pure parse of the whole of it, and its stability |
| `RequestSpelling.dfy` | the request grammar in the printing direction, and the round trip |
| `RequestParser.dfy` | the `RequestParser` class, method by method |
| `Chunking.dfy` | any cut into reads gives the parse of the whole stream |
| `RequestInfo.dfy`, `Query.dfy`, `Calculator.dfy`, `Router.dfy` | from a framed request to a response |
| `Responses.dfy`, `ResponseReader.dfy` | exact response bytes, and the client that reads them back |
| `Exchange.dfy` | what a connection must say: a pure function from bytes received to bytes sent |
| `Session.dfy` | the connection's invariant, one lemma per kind of step, and the whole-run theorems |
| `Connection.dfy`, `Server.dfy` | the `Connection` class over a nondeterministic socket; a whole run; poll timeouts |
| `Bounds.dfy` | how large a response and the buffers can be |
| `InputGrowth.dfy`, `Growth.dfy` | when the input buffer stays within one maximal request, and runs in which it does not |
| `ClientView.dfy` | what a client reads off the wire |

Two patterns recur. The fields of a class are gathered in a value (`View` for the parser, `Conn` for the
connection) whose invariant is stated once; each method is proved by a lemma about that value. And every
imperative loop is proved equal to a function whose own properties are the theorems.

Kernel calls are methods of `Socket` whose results are arbitrary within the call's contract, so a method
that verifies has been verified for every order of short reads, short writes, blocked calls and failures.
A socket can be healthy (`recv` and `send` do not fail), eager (`send` takes all it is offered), or have the results
of its next `recv` calls settled; that is how a particular run is exhibited, and any run is one on a socket with none.
The request handler is an arbitrary function from requests to an optional response (none when it threw);
it is fixed to the calculator's own only in `Bounds.dfy` and `ClientView.dfy`, and `Growth.dfy` asks it to keep
connections alive.

## Main results

* **Schedule independence.** `Server.Serve` runs a connection through any sequence of readiness events and
  times: the bytes sent are a prefix of what the received bytes call for, except that one 408 may follow
  all of it. `Session.ScheduleIndependence` compares two runs. When no call fails and no deadline passes,
  every close is a complete one; and whenever a connection is open with nothing left to write, it has sent
  everything the received bytes call for (`Session.NothingOwed`).
* **Chunking independence.** `Chunking.ParseInReads`: any cut of a stream into reads, with the parser asked
  any number of times in between, gives the requests and the error of the whole stream, in linear work.
  `Framing.PrefixStableIff` gives the exact limits for which this holds.
* **Exactly the grammar.** `RequestSpelling.RequestIff`: the parser returns a request if and only if the stream
  holds a spelling of it within the limits, its body as long as its fields announce.
  `RequestSpelling.AcceptsGrammarIff` gives the exact limits for which this holds. `StreamIsPipeline`: whatever the
  bytes, the requests returned are a pipeline of such spellings.
  `IncompleteIff`: the parser waits exactly for the rest of a head or for the body one announces. `RefusalStatus`:
  which status every stream gets that is refused.
* **No deadlock.** `Session.NoDeadlockIff`: between events, an open connection always polls for something that it
  will act on, if and only if the body limit and the high-water mark are at least one. It polls for readable exactly
  when it would read and for writable exactly when it would write (`Server.Outcome`, `Server.TakeTurn`).
  `Server.WaitsForNothing` drives a connection into waiting for nothing under every other setting.
* **Deadlines.** `Server.Serve` logs every turn of a run. `Server.SilenceIsTimed`: a connection has a deadline handled
  in a turn if and only if it has then been silent for the idle timeout, counted from its last traffic or deadline.
  `Server.LingerIsTimed`: the same of draining and the linger timeout. No connection handles more than two.
  `Server.SleepToDeadline`: a poll that times out at a deadline is followed by a turn that handles it.
* **When a 408 is sent.** `Server.Serve`, `Connections.Connection.OnDeadline`: when the idle timeout passes with
  nothing left to write, the client is told 408 if and only if the bytes it sent after its last complete request are
  more than empty lines, and the connection is otherwise closed as idle. In every run a 408 stands only after such bytes
  (`Session.TimeoutIsDeserved`).
* **Exactly-once delivery and completeness.** `Session.ExactlyOnce`, `Session.CloseIsComplete`: nothing is lost,
  repeated or reordered; a close after FIN, after the final response or of an idle connection has sent everything.
* **Termination.** `Connections.Connection.MakeProgress` terminates by the measure (phase, buffered input,
  pending output).
* **Discarded input.** `Server.Serve`: over a whole run a connection throws input away only while it drains, at most
  the discard limit as long as it stays open and at most one read more in all.
  `Connections.Connection.OnPollEvents` closes a draining connection exactly on FIN, on an error or past that limit.
* **What a client can read.** `ClientView.ReadRunIff`: at every point of every run, HEAD requests, refusals and the
  408 included, a reader gets the replies that have arrived, in order and numbered, taking just their bytes, if
  and only if it takes a body for exactly the replies that do not answer a framed HEAD request. From a connection that
  is drained, closed in order or open with nothing to do, that is everything the received bytes call for
  (`ClientView.RunReadBack`).
* **What each reply says.** `ClientView.ReplyRead`: in every reply that has arrived a client finds, by field name,
  `Connection: close` exactly on the reply to a request that does not persist and on the error or 408 that ends the
  stream, each of which is the last; its number and connection id; the size of its body; `Allow` on a 405 alone; and
  the status and body of the calculator's answer, of the framing error or of the 408. `ClientView.CloseOnTheWire` gives
  the close in terms of the request's Connection fields, and `ClientView.ReplyBytes` the exact bytes.
* **End to end.** `ClientView.CalculationOverTheWire`: if the received bytes begin with a pipeline of well-spelled
  requests, a GET among them for an operation is read back, in its place and on a connection that may still be open,
  as 200 with the exact result in decimal, without a needless zero, if and only if that result exists and fits in 64
  bits, and as 400 otherwise.
  `ClientView.CalculationArrives` says when its reply is there to be read.

## Where a promise needs a condition

* A head limit of zero makes a lone CR an error when it arrives before its LF, and an ignored empty line
  when it arrives with it (`Framing.LoneCarriageReturn`). Any limit of at least one is enough
  (`Framing.PrefixStableIff`).
* docs/design.md says that a full input buffer always holds a complete request or an error. With a body limit
  of zero it does not, and the connection waits for nothing; likewise with a high-water mark of zero, where it
  never reads (`Session.NoDeadlockIff`, `Server.WaitsForNothing`).
* The bounded Content-Length accumulation is exact if and only if ten times the body limit plus nine fits in
  64 bits; otherwise the text of 2^64 wraps to zero and is accepted (`HeadGrammar.ContentLengthExactIff`). A request
  that announces 2^64 bytes is then returned without a body (`RequestSpelling.WrapsToNothing`), unless no head within
  the limits can hold twenty digits; so the parser accepts exactly the grammar if and only if the sum fits, or a head is
  shorter than fifty bytes, or no field is allowed (`RequestSpelling.AcceptsGrammarIff`).
* docs/protocol.md says that a response to HEAD is always a 405. In every run it is one if and only if the HEAD could
  be framed, its Host is accepted and its path is that of an operation (`ClientView.HeadIs405Iff`). A framed HEAD
  is otherwise answered with 404 or 400, for instance `HEAD /` with 404 (`ClientView.HeadElsewhere`); one that could not
  be framed gets the status of its framing error, for instance 505 (`ClientView.RefusedHead`), and one left unfinished
  a 408.
* The demo client always reads Content-Length bytes of body, so it reads the replies that have arrived if and only if
  none of them answers a framed HEAD (`ClientView.DemoReaderIff`, and `ClientView.DemoClientReads` for its loop). A
  plain HEAD request is one it does not read the reply to (`ClientView.AnsweredHead`).
* A client that takes no body after its own HEAD requests reads the replies that have arrived if and only if the last of
  them answers a framed request or was not to a HEAD (`ClientView.VerbReaderIff`). The server sends a body with the
  refusal of a HEAD it could not frame, for instance one that names HTTP/2.0 (`ClientView.RefusedHead`), and with the
  408 for one left unfinished.
* The demo client adds the head end and the body length in `std::size_t`. Its answer is the first response of the
  stream if and only if that sum fits (`ResponseReading.ResponseReader.ReadOne`). If it does not, the client reports
  success and consumes less than the head: with a Content-Length of 2^64 - 1, all of the head but its last byte
  (`ResponseReading.HugeLengthOverflows`, `MisreadsHugeLength`). No response of the calculator is of this kind
  (`ClientView.SmallReadable`).
* include/calc/config.hpp counts one maximal request of input and one high-water mark of output per connection.
  As bounds these are proved of the unread input and, up to one response, of the unsent output
  (`Bounds.InputBounded`, `Bounds.OutputBounded`), and twice as much of the buffers with their consumed prefixes
  (`Bounds.InputBounded`, `Bounds.OutputBufferBounded`). The input buffer stays within one maximal request in every
  run if and only if the settings are not those of `InputGrowth.Outgrows`, or nothing is read because the high-water
  mark is zero (`Growth.WithinOneRequest`; under each of the others `Growth.OutgrowsOneRequest` drives a connection
  beyond it, for every handler that keeps connections alive, as the calculator does). With a head limit of at least fifty bytes and at least one field allowed, it stays within if and only if
  the head limit is at least 32764 and the body limit at least 32765 (`Growth.OutgrowsUsually`); with a body limit of
  at most 16384, if and only if the head limit is below three or the two together are below four
  (`Growth.OutgrowsInOneRead`). Under the default settings it does not stay within (`Growth.DefaultsOutgrow`).

The default settings meet every condition on settings above (`Session.DefaultsAreSound`).

## Model

| member | source | states |
|---|---|---|
| Text.TrimWhitespace | src/text.cpp:19-23 | the two shrinking loops give the unique core without spaces or tabs at either end |
| Text.TrimIsTheCore | src/text.cpp:19-23 | any text written as spaces and tabs, a core with neither at its ends, and spaces and tabs has that core as its trim |
| Text.BlankIff | src/text.cpp:19-23 | optional whitespace is spaces and tabs, and nothing else |
| Text.ExcerptLoop | src/text.cpp:25-33 | the loop yields the printable excerpt of at most the given length plus an ellipsis |
| Text.ExcerptKeeps | src/text.cpp:25-33 | the quoted text character by character: printable ones as they are, question marks for the others, an ellipsis exactly when it is cut |
| Text.IEqualsIff | src/text.cpp:7-17 | two strings are equal without case exactly when they are letter by letter, each in either case |
| Decimal.ValueInvertsOfNat | src/response.cpp:35-41 | reading a printed number gives the number back |
| Decimal.ValueJoin | src/calculator.cpp:16-30 | the value of digits is positional |
| Decimal.NumeralIff | src/response.cpp:35-41 | numbers are printed as the digits that denote them without a needless zero, and in no other way |
| Decimal.DecimalIff | src/router.cpp:129 | so are negative ones, after a minus sign |
| HeadGrammar.RequestLineAccepted | src/request_parser.cpp:31-77 | every token, space, origin-form target, space, HTTP/1. and a digit is accepted with its parts unchanged |
| HeadGrammar.RequestLineOnlyGrammar | src/request_parser.cpp:31-77 | every accepted line is a token, a space, an origin-form target, a space, HTTP/1. and a digit |
| HeadGrammar.MalformedIff | src/request_parser.cpp:31-41 | a line is malformed exactly when it is not three parts with one space between each |
| HeadGrammar.RequestLineErrors | src/request_parser.cpp:43-77 | of three parts, the first that is wrong is the reason for refusal |
| HeadGrammar.VersionRefused | src/request_parser.cpp:63-71 | with a good method and target, a bad version is the reason for refusal |
| HeadGrammar.HeaderLineAccepted | src/request_parser.cpp:79-105 | a name, a colon, and a value between any spaces and tabs yield that name and value |
| HeadGrammar.HeaderLineOnlyGrammar | src/request_parser.cpp:79-105 | every accepted field line is a token, a colon, spaces and tabs, a trimmed value without control characters, spaces and tabs |
| HeadGrammar.HeaderLineErrors | src/request_parser.cpp:79-105 | each failure of a field line exactly when it is called for: a space or tab in front, no colon, a bad name, a control character in the value |
| HeadGrammar.DetermineBodyLength | src/request_parser.cpp:111-159 | the field scan computes the body length, whose meaning is `BodyLengthIff` and `BodyLengthErrors` |
| HeadGrammar.ReadLength | src/request_parser.cpp:138-158 | the digit loop computes the length, whose meaning is `LengthIff` |
| HeadGrammar.AccumulateExact | src/request_parser.cpp:140-156 | 413 exactly when the unbounded decimal value exceeds the limit, and the exact value otherwise, for digit strings of any length |
| HeadGrammar.ContentLengthExactIff | src/request_parser.cpp:140-156 | the exact limits for which wrap-around in size_t cannot be observed |
| HeadGrammar.BodyWithinLimit | src/request_parser.cpp:153-158 | no accepted head announces more body than the limit |
| HeadGrammar.TokenCharIff | src/request_parser.cpp:13-23 | a token character is any visible character that is not a delimiter of section 5.6.2 of RFC 9110 |
| HeadGrammar.TokenIff | src/request_parser.cpp:13-27 | a token is one such character or more, and nothing else |
| HeadGrammar.TargetCharIff | src/request_parser.cpp:56-61 | a target holds visible ASCII only |
| HeadGrammar.OriginFormIff | src/request_parser.cpp:49-60 | an origin-form target is a slash and visible ASCII characters |
| HeadGrammar.FieldCharIff | src/request_parser.cpp:96-100 | a field value holds visible characters, spaces, tabs and bytes above ASCII only |
| HeadGrammar.FieldValueIff | src/request_parser.cpp:95-102 | a field value is made of those characters, and nothing else |
| HeadGrammar.ValuesMeaning | src/request_parser.cpp:116-123 | the values collected for a name, by field index: none, just one, or more |
| HeadGrammar.LengthIff | src/request_parser.cpp:138-158 | a Content-Length text means n exactly when it is digits that denote n within the limit; 413 exactly for digits that denote more; 400 for all else |
| HeadGrammar.BodyLengthIff | src/request_parser.cpp:111-159 | the body length is n if and only if there is no Transfer-Encoding and n is what the one Content-Length denotes, or zero without one, names compared without case |
| HeadGrammar.BodyLengthErrors | src/request_parser.cpp:125-156 | each framing error exactly when Content-Length and Transfer-Encoding fields call for it |
| Framing.LineStartDecides | src/request_parser.cpp:249-278 | the bytes at a line start decide whether the head ends there, goes on, or is not yet known |
| Framing.HeadHasALine | src/request_parser.cpp:293-296 | a head that does not start with an empty line has at least one line |
| Framing.RequestLinePresent | src/request_parser.cpp:293-296 | the missing-request-line error never happens |
| Framing.SkippedAreEmptyLines | src/request_parser.cpp:235-247 | what is skipped before a request is nothing but empty lines |
| Framing.SplitStable | src/request_parser.cpp:249-278 | a head end found stays found, and one not found can only lie in bytes yet to come |
| Framing.HeadDoneStable | src/request_parser.cpp:190-218 | a parsed head keeps its meaning when more bytes arrive |
| Framing.HeadBadStable | src/request_parser.cpp:193-210 | a rejected head stays rejected with the same error, on both 431 paths |
| Framing.CompleteStable | src/request_parser.cpp:220-232 | a complete request is final, with all its fields and offsets |
| Framing.ErrorStable | src/request_parser.cpp:313-320 | a framing error is final |
| Framing.PrefixStableIff | src/request_parser.cpp:193-204 | every decision on a prefix is the decision on the whole stream, if and only if the head limit is at least one |
| Framing.LoneCarriageReturn | src/request_parser.cpp:193-198 | the stream on which a head limit of zero makes the outcome depend on the cut |
| Framing.ParseAllGrows | include/calc/request_parser.hpp:33-52 | more bytes only add requests at the end, and nothing after an error |
| Framing.TakenIsParse | include/calc/request_parser.hpp:41-44 | taking requests one at a time is the whole-stream parse |
| Framing.CompleteAccounts | src/request_parser.cpp:211-225 | a request's interval is empty lines, then its head, then exactly its body |
| Framing.StreamAccounting | src/request_parser.cpp:211-225 | all intervals of a stream are disjoint, increasing and separated by empty lines only |
| Framing.ResumeSearch | src/request_parser.cpp:254-278 | searching from any scanned position finds the head end that searching from the start finds |
| Framing.HeadEndSuffix | src/request_parser.cpp:257-278 | a search of the buffer, which is a suffix of the stream, finds the head end of the stream |
| Framing.SplitWindow | src/request_parser.cpp:280-291 | the head's own bytes split into the same lines and the split stops exactly at their end |
| RequestSpelling.RequestRoundTrip | src/request_parser.cpp:182-233 | any spelling of a request, with any line endings, whitespace, announced body and following bytes, parses to its own fields and offsets |
| RequestSpelling.SpelledOutcome | src/request_parser.cpp:182-233 | for every well-spelled head that has arrived: which limit refuses it and how its fields fail to announce a body, each with its status, or how much body it waits for |
| RequestSpelling.OtherVersionIff | src/request_parser.cpp:63-71 | 505 exactly for a well-formed request line with another major version; every other bad request line is 400 |
| RequestSpelling.RefusalStatus | src/request_parser.cpp:182-233 | the status of every framing error: 431 exactly for what is oversized, 505 for another version, 501 for a transfer coding alone, 413 for a length above the limit, 400 for all else |
| RequestSpelling.IncompleteIff | src/request_parser.cpp:182-233 | where no length can wrap, the parser waits if and only if the head has not ended and is within its limit, or a well-spelled head within the limits announces more body than follows |
| RequestSpelling.RequestIff | src/request_parser.cpp:182-233 | a request whose spelling the stream holds is returned; where no length can wrap, a request is returned if and only if the stream holds a spelling of it within the limits |
| RequestSpelling.AcceptsGrammarIff | src/request_parser.cpp:182-233 | exactly the limits under which the parser accepts the grammar, no more and no less |
| RequestSpelling.WrapsToNothing | src/request_parser.cpp:140-158 | under every other limit, a request that announces 2^64 bytes is returned without a body |
| RequestSpelling.PipelineRoundTrip | src/request_parser.cpp:182-233 | requests back to back come out one by one in order, and what follows is parsed from where they end |
| RequestSpelling.StreamIsPipeline | src/request_parser.cpp:182-233 | where no length can wrap: whatever the bytes, the requests returned are a pipeline of well-spelled requests at the front of them |
| RequestParsing.SplitLines | src/request_parser.cpp:282-291 | the line loop collects the lines before the empty line |
| RequestParsing.ParseHead | src/request_parser.cpp:280-305 | the head parser decides as the grammar does: count, request line, fields in order, body length |
| RequestParsing.ErasePrefix | src/request_parser.cpp:168-178 | compaction changes only where the buffer begins, and moves at most two bytes per byte dropped |
| RequestParsing.AppendBytes | src/request_parser.cpp:165-180 | appending bytes keeps the parser's invariant in every state, the failed one included |
| RequestParsing.SearchStep | src/request_parser.cpp:257-278 | one step of the resumed search says where the whole head ends |
| RequestParsing.SearchHeadEnd | src/request_parser.cpp:257-278 | the search finds the head end, or says where to resume; it looks at no more than three bytes per byte it moves over, the two peeked at after each newline included |
| RequestParsing.LeaveBody | src/request_parser.cpp:220-232 | taking exactly body_length bytes completes the request the whole stream calls for |
| RequestParsing.RequestParser.constructor | src/request_parser.cpp:163 | a parser that has seen nothing |
| RequestParsing.RequestParser.Compact | src/request_parser.cpp:168-178 | drops the consumed prefix exactly when nothing is unread or the prefix is at least half the buffer, keeping what is unread |
| RequestParsing.RequestParser.Feed | src/request_parser.cpp:165-180 | the stream grows by exactly the bytes fed, after a compaction exactly when one is due; nothing else observable changes |
| RequestParsing.RequestParser.Consume | src/request_parser.cpp:307-311 | moves start and stream offset together and never lets the scan position fall behind |
| RequestParsing.RequestParser.SkipEmptyLinesBeforeRequest | src/request_parser.cpp:237-247 | the stream offset becomes the first position that is not an empty line |
| RequestParsing.RequestParser.FindEndOfHead | src/request_parser.cpp:257-278 | the head end of the stream, or none; the bytes looked at over all calls stay within three per byte scanned and per call |
| RequestParsing.RequestParser.Fail | src/request_parser.cpp:313-320 | the error is recorded and the buffer emptied |
| RequestParsing.RequestParser.ExamineHead | src/request_parser.cpp:190-210 | finds and parses the head exactly as the whole stream says |
| RequestParsing.RequestParser.TakeHead | src/request_parser.cpp:190-218 | the outcome when no head can be used, otherwise the parser awaits its body |
| RequestParsing.RequestParser.AwaitBodyOf | src/request_parser.cpp:211-217 | a parsed head is consumed and its body awaited |
| RequestParsing.RequestParser.TakeBody | src/request_parser.cpp:220-232 | waits for the whole body, then takes exactly that |
| RequestParsing.RequestParser.Next | src/request_parser.cpp:182-233 | returns what the pure parse of everything fed says next; Complete consumes at least one byte; Incomplete bounds what is buffered and leaves the parser at the body once the head is there; errors are sticky; at most one search per call |
| RequestParsing.PartialIffBegun | include/calc/request_parser.hpp:64 | a parser with nothing to return holds part of a request if and only if what follows the requests taken is more than empty lines |
| RequestParsing.BegunIffUnfinished | include/calc/request_parser.hpp:64 | and that is so of the received bytes: what follows their last complete request is more than empty lines |
| Chunking.ReportedIsParse | src/request_parser.cpp:182-233 | what was returned plus what is left is the parse of the stream, after a failure too |
| Chunking.Drain | src/request_parser.cpp:182-233 | draining a parser completes the parse of everything fed, with one question per request and one more |
| Chunking.ParseInReads | include/calc/request_parser.hpp:33-52 | every schedule of reads and questions gives the requests and error of the whole stream, moving at most two bytes per byte received and looking at three per byte received and per question |
| Chunking.LinearCost | src/request_parser.cpp:165-180 | over any history, at most two bytes moved per byte fed, and three looked at per byte fed and per search |
| RequestInfo.HeaderCount | src/request.cpp:14-20 | counts the fields with this name, case aside |
| RequestInfo.FirstHeader | src/request.cpp:7-12 | the value of the first field with this name, if there is one |
| RequestInfo.ListsFromMeaning | src/request.cpp:40-47 | the comma loop finds an option exactly when some list element is that option |
| RequestInfo.ListsIff | src/request.cpp:40-47 | a list holds an option, case aside, exactly if it stands there between commas or the ends, with spaces and tabs around it |
| RequestInfo.ScanOptions | src/request.cpp:40-47 | one Connection value: does it list close, does it list keep-alive |
| RequestInfo.WantsKeepAlive | src/request.cpp:33-51 | close anywhere wins; otherwise 1.1 persists and 1.0 must have asked to |
| RequestInfo.PersistsIff | src/request.cpp:33-51 | a request persists if and only if no field named Connection lists close, and it is 1.1 or some such field lists keep-alive, however many there are |
| RequestInfo.ListsItself | src/request.cpp:40-47 | a value without commas lists just itself, case aside |
| RequestInfo.TargetSplits | src/request.cpp:22-31 | a target is its path and, after the first question mark, its query |
| Responses.SerializeLoop | src/response.cpp:30-56 | the appended pieces are status line, the fixed fields, the response's own fields, empty line, and the body unless omitted; what a client finds in them is `ClientView.ReplyRead` |
| ResponseReading.CollectHeaders | tools/demo_client.cpp:145-154 | the position loop yields the fields line by line |
| ResponseReading.ReadHeadOf | tools/demo_client.cpp:132-161 | status line, fields and Content-Length of a head, with the failure of each |
| ResponseReading.Incoming.Receive | tools/demo_client.cpp:171-181 | recv hands over some of what is left, or nothing exactly at the end |
| ResponseReading.ResponseReader.Fill | tools/demo_client.cpp:171-181 | moves received bytes into the buffer without changing the stream |
| ResponseReading.ResponseReader.ReadOne | tools/demo_client.cpp:127-168 | however bytes arrive, the answer is the first response of the stream if and only if its size fits std::size_t; otherwise it is reported too short, by the wrapped sum; exactly the bytes reported are consumed |
| ResponseReading.ResponseReader.ReadRest | tools/demo_client.cpp:159-168 | waits for the announced bytes and cuts them off the front; the sum of head end and length wraps |
| ResponseReading.HugeLengthOverflows | tools/demo_client.cpp:161-162 | a head that announces 2^64 - 1 bytes: no response is there, and the wrapped end is one byte short of the head |
| ResponseReading.MisreadsHugeLength | tools/demo_client.cpp:159-168 | on that head the demo client reports a response without the last byte of its head |
| ResponseReading.LeadingIntegerInverts | tools/demo_client.cpp:142-161 | stoi and stoul read back what to_string printed |
| ResponseReading.LeadingIntegerIff | tools/demo_client.cpp:142-161 | what stoi and stoul read: space, a sign or none, and digits, whatever follows them |
| ResponseReading.StandardRanges | tools/demo_client.cpp:142-161 | the range of each, and the wrap of a negative number read as unsigned |
| ResponseReading.HeaderSplits | tools/demo_client.cpp:146-153 | a field line is split at its first colon and the spaces after it are dropped |
| ResponseReading.StatusLineSplits | tools/demo_client.cpp:134-143 | a status line is split at its first two spaces, with both failures |
| ResponseReading.BlankEndsHead | tools/demo_client.cpp:128-130 | the first empty line a client finds is the one that ends the head, for any readable fields |
| ResponseReading.HeadParsed | tools/demo_client.cpp:132-161 | status, reason, all fields in order and the first Content-Length are read back from any such head |
| ResponseReading.HeadEndFound | src/response.cpp:30-53 | the first empty line a client finds is the one that ends the serialized head |
| ResponseReading.HeadReadBack | src/response.cpp:30-53 | status, reason, all fields in order and the length are read back from a serialized head |
| ResponseReading.ReadSerialized | src/response.cpp:30-56 | what a reader that takes a body, or one that does not, makes of a response and any bytes after it |
| ResponseReading.ResponseRoundTrip | src/response.cpp:30-56 | reading undoes serializing, and leaves what follows untouched, when the reader takes a body just if one was sent or the body is empty |
| ResponseReading.InStepIff | tools/demo_client.cpp:159-167 | a reader stays in step if and only if it takes a body just when one was sent, or the body is empty |
| ResponseReading.StreamInStepIff | tools/demo_client.cpp:120-168 | from responses, with and without bodies, and whatever follows them, a reader gets all of them in order and takes just their bytes if and only if it is in step with each |
| ResponseReading.ReadAll | tools/demo_client.cpp:290-297 | one reading per request: however bytes arrive and whatever follows, every response comes back and just their bytes are taken if and only if each has its body or an empty one |
| Exchange.OnlyTheLastReplyCloses | src/connection.cpp:233-243 | at most one reply closes, and it is the last |
| Exchange.RepliesExtend | src/connection.cpp:175-214 | while nothing has closed, one more request means exactly one more reply at the end |
| Exchange.RepliesFail | src/connection.cpp:187-197 | while nothing has closed, a framing error means exactly one more reply at the end |
| Exchange.RepliesGrow | src/connection.cpp:175-214 | more requests only add replies, and none after one that closes |
| Exchange.ReplyAt | src/connection.cpp:175-214 | the i-th reply answers the i-th request, and the one after the last request reports the framing error |
| Exchange.OmitsIffHead | src/connection.cpp:187-205 | a body is withheld from exactly the answers to framed HEAD requests, and from no error reply |
| Exchange.AnswerIs | src/connection.cpp:199-231 | a handler that throws is answered for with 500 and a close; otherwise status, fields and body are the handler's, closing if it or the client says so |
| Exchange.ExpectedGrows | src/connection.cpp:175-243 | receiving more never changes what was to be said, only adds to it |
| Session.AnswerRequest | src/connection.cpp:199-211 | taking a request and queueing its answer keeps the connection's invariant |
| Session.AnswerError | src/connection.cpp:187-196 | so does answering a framing error |
| Session.AnswerTimeout | src/connection.cpp:353-362 | so does the 408, which is queued only when nothing complete is left unanswered and a request has been begun |
| Session.Send | src/connection.cpp:247-270 | bytes accepted by the kernel move from the output to the wire |
| Session.Reclaim | src/connection.cpp:284-292 | dropping the sent prefix loses nothing unsent, and moves at most two bytes per byte sent over the whole run |
| Session.Close | src/connection.cpp:380-385 | closing for a stated cause keeps the invariant, including what that cause promises: FIN, idle, final response sent |
| Session.ResponsesAreExpected | src/connection.cpp:175-243 | the responses so far are the first of those the received bytes call for; all of them once one closes or the client is done |
| Session.SentIsExpected | src/connection.cpp:245-294 | in every state the bytes sent are a prefix of what the received bytes call for, or that and part of one 408 |
| Session.CloseIsComplete | src/connection.cpp:160-172 | a close after FIN, after the final response or of an idle connection has sent everything, even if backpressure had paused parsing |
| Session.TimeoutIsDeserved | src/connection.cpp:353-366 | in every run a 408 is sent only if the received bytes leave a request unfinished, and a connection is closed as idle only if they do not |
| Session.NothingOwed | src/connection.cpp:149-158 | an open connection, between events and with nothing left to write, has given every reply the received bytes call for and sent it all |
| Session.ScheduleIndependence | src/connection.cpp:149-243 | two runs on the same bytes never disagree on a byte sent, and agree on all when both completed |
| Session.ExactlyOnce | src/connection.cpp:245-316 | sent plus pending is all responses in order; the write side is shut only after the last byte |
| Session.CloseIsLast | src/connection.cpp:233-243 | at most one response says close and it is the last |
| Session.PollsForWhatItDoes | src/connection.cpp:53-83 | readable is polled for exactly when a read would follow, writable exactly when a write would |
| Session.NoDeadlock | src/connection.cpp:53-83 | between events an open connection polls for something that it will act on, and in each phase for the right thing |
| Session.NoDeadlockIff | src/connection.cpp:71-83 | exactly the settings for which that holds |
| Session.UnendedQuiet | src/connection.cpp:175-184 | a head within the limit and without its end gets no answer and stays buffered, however it was cut into reads |
| Session.DefaultsAreSound | include/calc/config.hpp:13-68 | the default settings, which are among those all this needs, the exact Content-Length limit included |
| Connections.Socket.Recv | src/connection.cpp:121-147 | recv yields at most the bytes asked for, FIN, would-block or an error, and no error on a healthy socket; the size asked for is recorded |
| Connections.Socket.Discard | src/connection.cpp:319-324 | recv while draining: the bytes are counted as thrown away and not received |
| Connections.Socket.Send | src/connection.cpp:248-281 | send accepts a non-empty prefix, blocks or fails, and takes everything on an eager socket; it may be called only while the write side is open |
| Connections.Connection.constructor | src/connection.cpp:42-51 | a new connection is Active, at rest, with nothing received, sent or thrown away |
| Connections.Connection.CloseNow | src/connection.cpp:380-385 | closes once, with its cause |
| Connections.Connection.BeginLingeringClose | src/connection.cpp:308-316 | shuts the write side after the last byte and starts the linger timer, or closes |
| Connections.Connection.QueueResponse | src/connection.cpp:233-243 | appends the numbered response and moves to Closing when it closes |
| Connections.Connection.SendTail | src/connection.cpp:247-281 | one send: accepted bytes leave the output; an error closes |
| Connections.Connection.CallSend | src/connection.cpp:248-270 | what the kernel accepts moves from the output to the wire, and nothing else changes |
| Connections.Connection.FlushOutput | src/connection.cpp:245-294 | writes until all is sent or the kernel refuses more; reports progress exactly when pending output shrank |
| Connections.Connection.ReclaimOutput | src/connection.cpp:284-292 | drops the sent prefix, keeping what is pending; afterwards less than the unsent part is left of it, and at most two bytes were moved per byte dropped |
| Connections.Connection.RespondToBufferedRequests | src/connection.cpp:175-214 | answers in order until nothing is complete or the high-water mark is reached; progress consumes input or closes |
| Connections.Connection.RespondOnce | src/connection.cpp:183-211 | one request, one error, or nothing yet |
| Connections.Connection.RunHandler | src/connection.cpp:199-231 | the handler's response or 500, final unless kept alive, without body for HEAD |
| Connections.Connection.Pass | src/connection.cpp:153-158 | a pass that reports progress lowers the phase, the buffered input or the pending output |
| Connections.Connection.Lifecycle | src/connection.cpp:160-172 | after it the connection is at rest |
| Connections.Connection.MakeProgress | src/connection.cpp:149-158 | terminates by phase, buffered input and pending output, and stops only when nothing more can be answered or written |
| Connections.Connection.Advance | src/connection.cpp:149-173 | leaves the connection at rest; phases only move forward; a healthy socket is never closed early |
| Connections.Connection.ReadFromSocket | src/connection.cpp:111-147 | exactly one recv, asking for the smaller of one chunk and the room left: data is fed, FIN recorded, a blocked call changes nothing, an error closes |
| Connections.Connection.Digest | src/connection.cpp:123-147 | what each result of a recv does to the connection, and when the consumed part of the buffer is reclaimed |
| Connections.Connection.DiscardLingeringInput | src/connection.cpp:318-333 | one recv of one chunk; every byte thrown away counts towards the limit, and the drain ends as complete exactly on FIN, error or passing the limit |
| Connections.Connection.ReadAndAdvance | src/connection.cpp:100-108 | one recv if there is something to read and it is wanted, then all progress that can be made |
| Connections.Connection.OnPollEvents | src/connection.cpp:85-109 | every event leaves the connection at rest, with output pending only if the kernel refused it; one recv exactly when it wants to read or is draining; one send at least when output was pending; a socket error closes; bytes are thrown away only while draining, which ends exactly on FIN, error or passing the discard limit; the activity time moves exactly when bytes or FIN passed; received and sent only grow |
| Connections.Connection.OnDeadline | src/connection.cpp:348-378 | queues the 408 and offers it to the kernel exactly when nothing is pending and the bytes after the last complete request are more than empty lines, closes as idle exactly when they are not, and otherwise closes; a deadline that remains is strictly later; the times it is counted from are renewed; at most two are ever handled |
| Connections.Connection.TimeOutRequest | src/connection.cpp:353-362 | queues the 408 with a fresh window to write it and offers it at once: it is still pending only if the kernel refused it |
| Server.PollTimeoutMs | src/server.cpp:123-131 | the poll wakes at or after the earliest deadline, pause end or one second, and less than a millisecond late; after just one second if there is neither |
| Server.RunIsFaithful | src/connection.cpp:149-294 | every reachable state has sent only what the received bytes call for, and after that a 408 only for an unfinished request |
| Server.TakeEvents | src/server.cpp:66-69 | the reported events of a turn, with the recv and send they lead to and the wait they leave; nothing reported changes nothing |
| Server.TakeDeadline | src/server.cpp:70 | a deadline is handled exactly when the wait has lasted as long as the phase allows, with a 408 exactly for an unfinished request and an idle close exactly without one |
| Server.SilenceIsTimed | src/connection.cpp:335-366 | in every run a deadline is handled in a turn if and only if the connection has been silent for the idle timeout since its last traffic or deadline, or since it was accepted |
| Server.LingerIsTimed | src/connection.cpp:308-342 | in every run a draining connection is given up in a turn if and only if it has drained for the linger timeout |
| Server.TakeTurn | src/server.cpp:66-70 | one turn: the reported events, or nothing if there are none, then the deadline exactly if the wait has lasted the idle timeout, or the linger timeout while draining, with a 408 or an idle close as the received bytes call for; a polled event that is reported leads to its recv or send; a connection left open has its deadline strictly later |
| Server.SleepToDeadline | src/server.cpp:57-71 | a poll that times out at the deadline of a connection is followed by a turn that handles it, and the next timeout is positive |
| Server.Serve | src/server.cpp:66-70 | a whole connection under any schedule: faithful, complete when closed in order or open with nothing left to write, polling exactly for what it would do and never stuck, deadlines handled exactly when due by the log and at most twice, each with a 408 exactly for an unfinished request, input thrown away only while draining and within the discard limit, or one read more once closed; without failures and deadlines every close is in order |
| Server.Outcome | src/connection.cpp:53-83 | between events the invariant holds, and what is polled is what a readable, hung-up or writable event would make the connection do |
| Server.WaitsForNothing | src/connection.cpp:71-83 | with no room for a body or no high-water mark, a real connection comes to wait for nothing |
| QueryStrings.DecodeLoop | src/query.cpp:18-34 | the index loop computes the decoding |
| QueryStrings.HexValue | src/query.cpp:9-14 | a hex digit of either case has the value of its place among the sixteen |
| QueryStrings.EscapeIff | src/query.cpp:24-31 | an escape stands for a byte exactly when its digits, each in either case, are those of the high and the low half of it |
| QueryStrings.DecodeIff | src/query.cpp:18-34 | decoding yields a string exactly when the text writes it byte by byte, each as itself or as a percent sign and its two hexadecimal digits |
| QueryStrings.EscapeSpells | src/query.cpp:18-34 | every byte string has spellings free of separators, with any choice of what else to escape and each hex digit in either case |
| QueryStrings.ReadSegment | src/query.cpp:44-60 | one name=value segment with its three failures |
| QueryStrings.SegmentErrors | src/query.cpp:44-60 | each failure of a segment exactly when it is called for: nothing there, no equals sign, a part that spells nothing |
| QueryStrings.ParseQueryLoop | src/query.cpp:36-66 | the shrinking loop splits before it decodes |
| QueryStrings.QueryRoundTrip | src/query.cpp:36-66 | joined spellings parse to the original list |
| QueryStrings.QueryOnlySpellings | src/query.cpp:36-66 | every accepted query is a join of spellings of what it returns |
| QueryStrings.QueryErrors | src/query.cpp:36-66 | the first segment that fails decides, whatever follows it; an empty query has no parameters |
| Calculator.ParseInt64Loop | src/calculator.cpp:16-30 | accepts exactly -?[0-9]+ in range, with the source's three failures |
| Calculator.ParseInverts | src/calculator.cpp:16-30 | reading inverts decimal printing on every 64-bit value |
| Calculator.ParseInt64Iff | src/calculator.cpp:16-30 | a text is read as v exactly when it is digits, perhaps after a minus sign, that denote v within 64 bits; out of range exactly when they denote another |
| Calculator.RangeIff | src/calculator.cpp:16-30 | the range is that of a 64-bit integer |
| Calculator.OperationIff | src/calculator.cpp:8-14 | which path stands for which operation |
| Calculator.TruncatingDivideIsQuotient | src/calculator.cpp:48-56 | the machine quotient leaves a remainder smaller than the divisor with the dividend's sign |
| Calculator.DivisionOverflow | src/calculator.cpp:53-55 | exactly one division does not fit |
| Calculator.CalculateIff | src/calculator.cpp:32-65 | the exact mathematical result if and only if it exists and fits |
| Calculator.CalculateErrors | src/calculator.cpp:32-65 | division by zero exactly for that, overflow exactly when the exact result does not fit |
| Router.ParseOperandsLoop | src/router.cpp:65-86 | the slot loop computes the operands or the first failure |
| Router.OperandsIff | src/router.cpp:61-86 | operands are accepted exactly when the query holds one a and one b, in either order, both in range |
| Router.OperandErrors | src/router.cpp:61-86 | each failure of decoded parameters: the first unknown or repeated one, the missing ones, the first that is no integer in range |
| Router.ValidHostIff | src/router.cpp:21-48 | a valid Host is a name or a bracketed address, each with an optional port, and nothing else |
| Router.HostCharIff | src/router.cpp:21-48 | the characters of a host name |
| Router.AddressCharIff | src/router.cpp:21-48 | the characters of a bracketed address |
| Router.HostAcceptedIff | src/router.cpp:91-101 | the Host check: no two fields of that name, one in 1.1, and a valid value |
| Router.Handle | src/router.cpp:90-130 | the checks in order, each with its refusal, compute the response, whose meaning is `StatusIff` and `SuccessIff` |
| Router.SuccessIff | src/router.cpp:90-130 | a request succeeds exactly when every check passes, with the exact result |
| Router.StatusIff | src/router.cpp:90-130 | for every request: 404 exactly for an unknown path and 405 for another method, each with the Host accepted, 200 exactly when a result exists, 400 for all else; Allow: GET on a 405 alone |
| Router.EndToEnd | src/router.cpp:90-130 | for all operands, percent-spellings and both orders: 200 with the result in decimal, without a needless zero, on a line of its own if and only if the result exists and fits, else 400 |
| Bounds.ErrorsSmall | src/request_parser.cpp:32-159 | framing errors quote only excerpts, short versions and limits |
| Bounds.MessageShort | src/text.cpp:25-33 | the text of a framing error is below 128 bytes |
| Bounds.HandledSmall | src/router.cpp:90-130 | every calculator response has a body of at most 128 bytes and at most one field of its own |
| Bounds.SerializedShort | src/response.cpp:30-56 | every calculator response is at most 420 bytes on the wire |
| Bounds.ResponsesSmall | src/connection.cpp:175-214 | every response of every run of the calculator is such a response |
| Bounds.OutputBounded | src/connection.cpp:182-241 | pending output stays below the high-water mark plus 420 bytes in every reachable state |
| Bounds.OutputBufferBounded | src/connection.cpp:284-292 | between events the output buffer, sent prefix included, stays below twice that; at most two bytes are moved per byte sent |
| Bounds.InputBounded | src/connection.cpp:79-119 | unread input stays within one maximal request and the buffer below two, under all settings that allow a request of one byte |
| InputGrowth.StarvedConsumed | src/request_parser.cpp:182-233 | what a parser with nothing to return has consumed depends on the bytes received alone |
| InputGrowth.ConsumesOn | src/request_parser.cpp:182-233 | whatever more bytes make it consume reaches into them |
| InputGrowth.AnnouncedIsAnnounceable | src/request_parser.cpp:111-159 | a head that announces n bytes takes thirty bytes and the digits of n at least |
| InputGrowth.LeanFeed | src/request_parser.cpp:165-180 | after every read that fits the room left, few consumed bytes are kept or few are unread, and the buffer is within one maximal request unless the settings are those of `Outgrows` |
| Growth.WithinOneRequest | include/calc/config.hpp:27-29 | in every state of every run the input buffer is within one maximal request, unless the settings are those of `Outgrows` and input is read |
| Growth.OutgrowsUsually | include/calc/config.hpp:13-29 | which settings these are when any length fits a head: the head limit below 32764 or the body limit below 32765 |
| Growth.OutgrowsInOneRead | include/calc/config.hpp:13-29 | and when the largest body fits one read: a head of three bytes and a request of four are allowed |
| Growth.DefaultsOutgrow | include/calc/config.hpp:13-29 | the default settings are among them |
| Growth.CalculatorKeepsAlive | src/router.cpp:90-130 | the calculator closes a connection only when the request asks for it |
| Growth.OutgrowsOneRequest | src/request_parser.cpp:165-180 | under each of the settings of `InputGrowth.Outgrows`, reads that one recv can bring and that fit the room left bring the input buffer of a connection above one maximal request |
| ClientView.SmallReadable | src/response.cpp:30-56 | every response of the calculator can be read back, and its size does not overflow |
| ClientView.SaidOmitsIffHead | src/connection.cpp:187-205 | in every run a body is withheld from exactly the replies to framed HEAD requests; errors and the 408 carry one |
| ClientView.AllSaid | src/connection.cpp:149-172 | the replies so far are the first of those called for, and all of them, sent, once the connection drains, is closed in order or is open with nothing to do |
| ClientView.ArrivedIff | src/connection.cpp:245-294 | of the bytes sent in any run, a prefix holds the first replies whole exactly when it is as long as they are |
| ClientView.ReadRunIff | src/connection.cpp:233-241 | at every point of every run a reader gets the replies that have arrived, numbered from one and taking just their bytes, if and only if it takes a body for exactly the replies that do not answer a framed HEAD |
| ClientView.RepliesReadBack | src/connection.cpp:233-241 | that reader reads back any number of replies that have arrived, in any run, and leaves what follows |
| ClientView.RunReadBack | src/connection.cpp:233-241 | from a connection that has caught up, open or closed, that reader reads everything the received bytes call for, refusals included, with nothing left over |
| ClientView.ReplyRead | src/connection.cpp:175-243 | what a client reads in every reply that has arrived: its fields in order and by name, with close exactly on the last word, id, number and size in decimal without a needless zero, Allow on a 405 alone; status and body; a 408 only for a request left unfinished |
| ClientView.CloseOnTheWire | src/request.cpp:33-51 | the reply to a framed request says close if and only if some field named Connection lists close, or it is HTTP/1.0 and none lists keep-alive |
| ClientView.HeadIs405Iff | docs/protocol.md:82 | in every run a HEAD is answered with 405 if and only if it could be framed, its Host is accepted and its path is that of an operation; 404 exactly for another path of such a request, 400 for its Host |
| ClientView.ReplyBytes | src/response.cpp:30-56 | the bytes of every reply that has arrived: HTTP/1.1, its status in decimal and its phrase; its fields in order, each as name, colon, space and value on a line; an empty line; its body |
| ClientView.ReasonTexts | src/response.cpp:14-28 | the phrase of every status the server sends |
| ClientView.VerbReaderIff | src/connection.cpp:187-205 | a reader that goes by its own HEAD requests reads the replies that have arrived if and only if the last of them answers a framed request or was not to a HEAD |
| ClientView.DemoReaderIff | tools/demo_client.cpp:159-167 | the demo client reads the replies that have arrived if and only if none of them answers a framed HEAD |
| ClientView.DemoClientReads | tools/demo_client.cpp:290-297 | the same of its reading loop, on a socket that delivers the bytes as it likes, whatever follows |
| ClientView.AnsweredHead | src/connection.cpp:204-205 | the plain HEAD request whose reply the demo client does not read, and a reader that takes no body does |
| ClientView.HeadElsewhere | src/router.cpp:103-109 | the plain HEAD request that is answered with 404 and not with 405 |
| ClientView.RefusedHead | src/connection.cpp:187-196 | the HEAD request that is answered with 505 and a body |
| ClientView.CalculationOverTheWire | src/router.cpp:90-130 | if the received bytes begin with a pipeline of well-spelled requests, the k-th of them a GET for an operation, and its reply has arrived, the k-th reply read is 200 with the exact result in decimal, without a needless zero, if and only if that exists and fits, and 400 otherwise |
| ClientView.CalculationArrives | src/connection.cpp:149-214 | once the connection has caught up that reply has arrived, if no request before it asked for a close |

## Left out

- Sockets, addresses, `poll`, `accept` and the descriptor wrapper: foreign calls, replaced by `Socket` and by events given to `Serve`; an interrupted call is folded into its retry.
- Logging and the statistics other than the response count: no effect on behaviour.
- The connection cap, connection ids and the accept pause beyond its part in the poll timeout: plain counters.
- Command line, signals and the demo client's printing and options: user interface.
- A handler with state of its own: the model's handler is a function of the request.
- Wrap-around of 64-bit stream offsets and counters: they are unbounded here, and results about the calculator's responses ask for twenty digits at most.
- Clock arithmetic: times are unbounded integers in nanoseconds, and a closed connection's deadline is absent instead of the largest time.
- Update in place of the byte buffers: a buffer is a sequence field that methods reassign, so capacity and reallocation are not modelled; the bytes moved by compaction are counted.
- Bytes above 255: a byte is a `char`, and only escaping asks it to be below 256.
- `std::from_chars`: taken as the decimal value with its range check.
- The wording of error texts: `Wording.dfy` holds them and their length is bounded, but no result says which text goes with which error; the statuses are pinned.
- A body limit that does not fit `std::size_t`: `Growth.OutgrowsOneRequest` and `Growth.OutgrowsUsually` ask for one that does.
- Bounds.OutputBufferBounded: keeps the output buffer below twice the bound on unsent output, and does not say how close it comes.
- Closing every connection when the server shuts down: no promise is attached to it.

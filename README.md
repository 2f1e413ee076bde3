# A verified model of a small HTTP/1.1 server

The server accepts TCP connections and gives each one a handler. The
accept loop registers every handler in a list, numbered 1, 2, 3, ... in
order of arrival. A handler reads one request at a time from its
connection, validates it, builds an answer and sends it back. It does this
until the end of the stream closes the connection and the handler turns
DEAD.

The validator is an ordered, first-match-wins chain of checks. Its results
are:
- 404 for an empty request line;
- 503 for a handler the registry does not admit;
- 400 for a request line without exactly three tokens;
- 501 for a method other than GET and POST;
- 404 for a target the server does not serve;
- for a POST, a Content-Length check that, as written, never rejects
  anything (see "## Findings");
- 400 or 505 for a bad version token;
- 400 for a line not ending in a carriage return;
- otherwise 200.

The registry admits a handler when at most five handlers up to and
including it, in list order, are LIVE.

The answer has:
- a status line from a fixed table;
- Date, Content-Length and Connection headers;
- for a served GET, also Content-Type and Last-Modified headers and the
  file as the body.

An exception on the way is caught by the handler's loop. Nothing is sent
for that request, and the handler reads on. The only such exceptions are
indexes past the end of a `split` result:
- a request of newlines only, so the request line is missing;
- a version token made of slashes only, or of `HTTP` followed by slashes
  only (such as `HTTP/`).

answerBody would throw on `substring(1)` of an empty target, but never
for a status the validator yields (`Response.ValidatedAnswered`).

Modules, one per file:

- `JavaString`: the Java library behaviour the source relies on.
  - `String.split` with a literal delimiter, which drops trailing empty
    strings; `indexOf`, `contains` and `endsWith`.
  - `Integer.parseInt` within the 32-bit range, and the decimal rendering
    of an int.
  - `Object.toString` of a `String[]`, which gives the class name, `@` and
    the identity hash in hex.
- `ThreadStates`: the LIVE/DEAD enumeration.
- `Admission`: the LIVE count and the admission rule of `checkAvailable`,
  over the list of handler states.
- `Validator`:
  - `numStatus` as a decision function `StatusOf`, given what its POST
    body check finds;
  - the body check as written (`BodyCheckAsWritten`) and as its comment
    describes it (`BodyCheckIntended`);
  - methods with the source's loops (`NumStatus`, `ScanLines`,
    `LinesEndInCR`, `ContentLengthAsWritten`, `ContentLengthIntended`).
- `ValidatorProperties`: what the chain decides, in general and for each
  request the client builds.
- `Response`:
  - the reply as a value (`AnswerFor`), its rendering, and a parser that
    reads the text back;
  - a `StringBuilder` class and the methods `AnswerPutStatus` and
    `AnswerBody`, which append to it in the source's order.
- `Server`:
  - the `ServerThread` class, with fields `state`, `threadCount`, the
    unread input and the answers sent, and the methods `ReadRequest`,
    `Close`, `Run` and the body of run's loop;
  - the `Registry` class, with fields `threadCount` and `threadList`, and
    the methods `Accept`, `CheckActive` and `CheckAvailable`.
  - A connection's input is a sequence of reads. Each read is a character
    together with what `ready()` says after it, or the end of the stream.
    `Session` is the function that specifies what `run` does with the
    whole input.
- `ServerProperties`: how the input is cut into requests, when a handler
  dies, what it sends for a request, and what the registry's answer
  means.

The handler validates with numStatus as written, so it accepts a POST
whatever its Content-Length says. The identity hash of the line array
that the as-written check scans is any value in `ServerThread.Answer`;
`ValidatorProperties.ArrayHashIrrelevant` shows that it never changes the
verdict, so `Respond` fixes it at 0. `RespondIntended` is the handler's
answer under the check the comment at ServerThreads.java:168 describes,
and `ServerProperties.RespondDiffersOnlyOnLength` bounds where the two
differ.

Where the source's comments or the HTTP standard say otherwise, the model
follows the code:
- The comment at MyHttpServer.java:18 says that six or more handlers
  cannot connect. In the code a DEAD handler is still admitted when at
  most five LIVE handlers come before it (`Admission.DeadTargetAdmission`).
- Section 15.6.6 of RFC 9110 names 505 "HTTP Version Not Supported". The
  code writes "Version Not Supported".
- The javadoc of numStatus (ServerThreads.java:130-140) says it returns a
  status code for every request. An exception while validating sends
  nothing at all.
- An I/O error in the loop is caught and does not make a handler DEAD.

## Model

| member | source | states |
|---|---|---|
| JavaString.Find | ServerThreads.java:182 | `contains`/`indexOf`: the index found is an occurrence with none before it; None means no occurrence at all |
| JavaString.FindFirst | ServerThreads.java:182 | an occurrence with none before it is the one `indexOf` finds |
| JavaString.FindAbsent | ServerThreads.java:182 | a string without the delimiter's first character has no occurrence |
| JavaString.DropTrailingEmpty | ServerThreads.java:143-144 | `split` drops exactly the trailing empty strings: the result is a prefix, all that is dropped is empty, and the last kept one is not |
| JavaString.Fields | ServerThreads.java:143-144 | the pieces of a string between occurrences of the delimiter, trailing empty ones included |
| JavaString.Split | ServerThreads.java:143-144 | `String.split` with a literal delimiter and limit 0: the pieces with the trailing empty ones dropped |
| JavaString.JoinFields | ServerThreads.java:143-144 | the fields of a split, glued back with the delimiter, give the original string |
| JavaString.FieldsFree | ServerThreads.java:143-144 | no field of a split contains the delimiter |
| JavaString.FieldsOfJoin | ServerThreads.java:143-144 | splitting a join of delimiter-free pieces gives the pieces back |
| JavaString.SplitOfJoin | ServerThreads.java:143-144 | Java's split of such a join is the pieces without their trailing empty ones |
| JavaString.SplitOfFree | ServerThreads.java:183 | a string without the delimiter splits into itself alone |
| JavaString.FieldsAllEmpty | ServerThreads.java:59 | all fields are empty exactly when the string is made of the delimiter only |
| JavaString.SplitEmptyIff | ServerThreads.java:59 | `split("\n")` is empty, so that `[0]` throws, exactly when the request is non-empty and all newlines; `""` splits into `[""]` |
| JavaString.SplitHead | ServerThreads.java:59 | the first element of a split is the text before the first delimiter |
| JavaString.ParseInt | ServerThreads.java:175 | `Integer.parseInt` yields only values in the 32-bit range; anything else is the exception |
| JavaString.IntToString | ServerThreads.java:246 | the decimal text of n is a non-empty digit string whose value is n |
| JavaString.ParseIntToString | ServerThreads.java:246 | parsing the decimal text of an int gives the int back |
| JavaString.HexStringNoColon | ServerThreads.java:171 | the identity hash in hex holds no colon |
| JavaString.StringArrayToStringSplit | ServerThreads.java:171 | the array's identity string splits on ": " into itself alone, and starts with '[' |
| Admission.LiveCount | MyHttpServer.java:57-65 | the LIVE count never exceeds the number of handlers |
| Admission.Admitted | MyHttpServer.java:75-87 | the admission rule: at most 5 handlers up to and including position i are LIVE |
| Admission.AdmittedLive | MyHttpServer.java:75-87 | the positions of the LIVE handlers that are admitted |
| Admission.LiveCountSnoc | MyHttpServer.java:60-63 | counting one more handler adds one exactly when it is LIVE |
| Admission.LiveCountZero | MyHttpServer.java:57-65 | the count is 0 exactly when every handler is DEAD |
| Admission.LiveCountStep | MyHttpServer.java:78-80 | the running count one handler further along the list |
| Admission.LiveCountMonotone | MyHttpServer.java:78-80 | running counts never decrease along the list |
| Admission.LiveCountMarkDead | ServerThreads.java:292 | a handler turning DEAD never increases the count |
| Admission.AppendKeepsAdmission | MyHttpServer.java:40 | registering a new handler never changes the admission of those already registered |
| Admission.DeathKeepsAdmission | MyHttpServer.java:75-87 | a handler turning DEAD never revokes another's admission |
| Admission.EarlierAdmitted | MyHttpServer.java:75-87 | first come, first served: a handler before an admitted one is admitted |
| Admission.AllAdmittedUnderCeiling | MyHttpServer.java:75-87 | with at most 5 LIVE handlers, every handler is admitted |
| Admission.LateLiveRefused | MyHttpServer.java:75-87 | a LIVE handler with 5 or more LIVE handlers before it is refused |
| Admission.DeadTargetAdmission | MyHttpServer.java:78-84 | a DEAD handler is admitted exactly when at most 5 LIVE handlers precede it |
| Admission.AdmittedLiveSnoc | MyHttpServer.java:75-87 | one more handler joins the admitted LIVE ones exactly when it is LIVE and within the ceiling |
| Admission.AdmittedLiveSize | MyHttpServer.java:18-19 | exactly min(LIVE count, 5) LIVE handlers are admitted: never more than 5 are served |
| Admission.LiveCountAllLive | MyHttpServer.java:60-63 | a list of LIVE handlers only counts all of them |
| Admission.SixConcurrentConnections | MyHttpServer.java:75-87 | six LIVE handlers: the first five are admitted, the sixth refused, five admitted in all |
| Validator.HeaderValue | ServerThreads.java:168-171 | a header value found belongs to a line `name: value` of the request |
| ValidatorProperties.HeaderValueFirst | ServerThreads.java:168 | the search finds nothing exactly when no line starts with the name and ": ", and otherwise the value of the first line that does |
| Validator.VersionStatus | ServerThreads.java:182-195 | the version stage yields only 200, 400 or 505, and 200 only for CRLF-terminated lines |
| Validator.TokensStatus | ServerThreads.java:157-195 | 200 only for a served method and target with CRLF-terminated lines |
| Validator.StatusOf | ServerThreads.java:141-198 | the chain: only the six codes; 404 for an empty line, then 503 when not admitted, then 400 without three tokens; 200 only when admitted, served and CRLF-terminated |
| Validator.RequestLineOf | ServerThreads.java:59 | the first element of the request split on newlines, or none when that array is empty and the index throws |
| Validator.ScanContentLength | ServerThreads.java:173-179 | the loop over the scanned pieces: at "Content-Length" the next piece is parsed and compared with the body length |
| Validator.BodyCheckAsWritten | ServerThreads.java:168-179 | the body is the last line, and the scanned pieces come from the identity string of the line array |
| Validator.BodyCheckIntended | ServerThreads.java:168-179 | the Content-Length header value, carriage return removed, must parse to the body length; a missing header is not checked |
| Validator.Validate | ServerThreads.java:141-198 | numStatus as written: the chain with the as-written body check |
| Validator.ValidateIntended | ServerThreads.java:141-198 | numStatus with the body check its comment at line 168 describes |
| Validator.ValidateRequest | ServerThreads.java:59-60 | the request line extracted, then numStatus as written on it |
| Validator.NumStatus | ServerThreads.java:141-198 | numStatus computes the chain's verdict for the body check's result |
| Validator.ScanLines | ServerThreads.java:173-179 | the Content-Length loop finds what the scan function defines, including its early return and exceptions |
| Validator.LinesEndInCR | ServerThreads.java:191-195 | the line-ending loop accepts exactly when every line but the last ends in a carriage return |
| Validator.ContentLengthAsWritten | ServerThreads.java:168-179 | the body check as written, over the split identity string of the line array |
| Validator.ContentLengthIntended | ServerThreads.java:168-179 | the body check as its comment describes it, over the header lines |
| ValidatorProperties.ThreeTokens | ServerThreads.java:143 | three space-free tokens, the last non-empty, split back into themselves |
| ValidatorProperties.TwoSegments | ServerThreads.java:183 | two slash-free segments split back into themselves |
| ValidatorProperties.RequestLineIsFirstLine | ServerThreads.java:59 | the request line is the text before the first newline, unless that is empty and only newlines follow |
| ValidatorProperties.RequestLineWithoutNewline | ServerThreads.java:59 | a request without a newline is its own request line |
| ValidatorProperties.RequestLineMissingIff | ServerThreads.java:59 | the request line is missing (the index throws) exactly for a non-empty request of newlines only |
| ValidatorProperties.EmptyFirstLineNotFound | ServerThreads.java:146-147 | an empty first line yields 404, whatever the admission |
| ValidatorProperties.NewlinesOnlyThrow | ServerThreads.java:59 | a request of newlines only throws |
| ValidatorProperties.VersionWithoutSlash | ServerThreads.java:188-189 | a version token without '/' yields 400 |
| ValidatorProperties.VersionSegments | ServerThreads.java:182-195 | only the first two segments count: "HTTP" or 400, then "1.1\r" or 505, then the line endings |
| ValidatorProperties.VersionByFirstTwo | ServerThreads.java:183-187 | the version stage is decided by the first two segments of the split |
| ValidatorProperties.FirstTwoSegments | ServerThreads.java:183 | the split of a joined version token starts with its first two segments |
| ValidatorProperties.Http11Version | ServerThreads.java:182-195 | "HTTP/1.1\r" passes exactly when the lines are CRLF-terminated |
| ValidatorProperties.VersionWithEmptySecondSegment | ServerThreads.java:183-186 | a token "X/" throws when X is "HTTP" (no second segment) and yields 400 otherwise |
| ValidatorProperties.ContentLengthNeverChecked | ServerThreads.java:171-179 | as written the body check never rejects: it throws for no lines, otherwise passes |
| ValidatorProperties.ArrayHashIrrelevant | ServerThreads.java:171 | as written the verdict does not depend on the array's identity hash |
| ValidatorProperties.IntendedDiffersOnlyOnLength | ServerThreads.java:164-179 | the two readings differ only for an admitted POST to /simpleForm.html whose Content-Length disagrees, which the intended one rejects with 400 |
| ValidatorProperties.NonPostUnaffected | ServerThreads.java:164-179 | a request line that is not a POST validates the same under both readings |
| ValidatorProperties.CheckMatters | ServerThreads.java:164-179 | the body check changes the verdict only for an admitted POST to /simpleForm.html |
| ValidatorProperties.ClientRequestJoin | MyHttpClient.java:50-57 | the client's request is its six pieces joined by newlines |
| ValidatorProperties.ClientPartsFree | MyHttpClient.java:50-57 | none of those pieces holds a newline |
| ValidatorProperties.ClientRequestLines | MyHttpClient.java:50-57 | the lines the server sees for the client's request, the empty body dropped by split |
| ValidatorProperties.ClientRequestShape | MyHttpClient.java:50-57 | the client's lines are CRLF-terminated, and its request line arrives with the carriage return on |
| ValidatorProperties.ValidateTokens | ServerThreads.java:150-195 | for an admitted three-token line, the method, target and version checks decide |
| ValidatorProperties.MethodAndTargetRules | ServerThreads.java:157-166 | for any admitted three-token line, whatever the body check finds: a method other than GET and POST gives 501, a GET of a target other than / and /index.html gives 404, a POST of a target other than /simpleForm.html gives 404 |
| ValidatorProperties.ClientExtraSpaces | MyHttpClient.java:134-143 | malformed request 2, with extra spaces, yields 400 |
| ValidatorProperties.ExtraSpacesTokens | MyHttpClient.java:135 | that request line splits into eleven tokens, the empty ones included |
| ValidatorProperties.RequestLineTokens | MyHttpClient.java:52 | a client request line splits into method, target and version with the carriage return |
| ValidatorProperties.FourTokens | MyHttpClient.java:125-126 | four space-free tokens split back into themselves |
| ValidatorProperties.HttpVersion | ServerThreads.java:182-187 | "HTTP/x" yields 505 unless x is "1.1\r" |
| ValidatorProperties.ClientGet | MyHttpClient.java:48-60 | a client GET: 503 when not admitted, 404 for another target, else the version check |
| ValidatorProperties.ClientGetIndex | MyHttpClient.java:48-60 | GET / or /index.html over HTTP/1.1: 200 when admitted, 503 otherwise |
| ValidatorProperties.ClientUnknownTarget | MyHttpClient.java:48-60 | a GET of another resource yields 404 |
| ValidatorProperties.ClientWrongVersion | MyHttpClient.java:48-60 | any HTTP version other than 1.1 yields 505 |
| ValidatorProperties.ClientMissingVersion | MyHttpClient.java:144-153 | malformed request 3, without a version, yields 400 |
| ValidatorProperties.ClientMissingLineEnd | MyHttpClient.java:124-133 | malformed request 1, without the CRLF, yields 400 whatever follows |
| ValidatorProperties.ClientUnimplementedMethod | MyHttpClient.java:95-107 | a method other than GET and POST yields 501 |
| ValidatorProperties.ClientContentLengthHeader | MyHttpClient.java:80 | the intended check finds the client's Content-Length value, with its carriage return |
| ValidatorProperties.ClientPostShape | MyHttpClient.java:78-83 | the client's POST has three tokens and passes the version stage |
| ValidatorProperties.ClientPostAsWritten | MyHttpClient.java:69-86 | as written the client's POST is accepted whatever its Content-Length |
| ValidatorProperties.ClientPostLength | MyHttpClient.java:69-86 | the intended check accepts the client's POST exactly when Content-Length is the body's length |
| ValidatorProperties.ClientPost | MyHttpClient.java:69-86 | the client's POST: 200 as written for any n; under the intended check 200 exactly when n is the body's length, else 400 |
| ValidatorProperties.MismatchedPostAccepted | ServerThreads.java:171 | a POST announcing 5 body characters and carrying 2 is accepted as written, rejected with 400 as intended |
| Response.ReasonPhrase | ServerThreads.java:209-220 | a phrase exists only for codes from 100 to 505, and none holds a carriage return |
| Response.StatusLine | ServerThreads.java:207-221 | "HTTP/1.1 ", the code, a space, the phrase and CRLF |
| Response.AnswerFor | ServerThreads.java:231-267 | the reply answerBody builds for a code, or none when it throws |
| Response.Render | ServerThreads.java:207-267 | the text of a reply: the status line, the headers, the blank line and the body |
| Response.ParseReply | ServerThreads.java:207-267 | reads a text in the layout answerPutStatus and answerBody write back into a reply, or none |
| Response.ValidatedCodesHavePhrase | ServerThreads.java:207-221 | every code numStatus yields has a status line |
| Response.StatusLineRoundTrip | ServerThreads.java:207-221 | the status line is one CRLF-terminated line that reads back as its code |
| Response.HeadersRoundTrip | ServerThreads.java:245-265 | rendered well-formed header lines, the blank line and a body parse back into themselves |
| Response.ReplyRoundTrip | ServerThreads.java:207-267 | rendering a well-formed reply and parsing the text gives the reply back |
| Response.DecimalWellFormed | ServerThreads.java:246 | a header with a decimal value is well formed |
| Response.PlainWellFormed | ServerThreads.java:261-263 | the headers of a non-GET reply are well formed when the date has no carriage return |
| Response.GetWellFormed | ServerThreads.java:245-249 | the headers of a served GET are well formed when the dates have no carriage return |
| Response.AnswerWellFormed | ServerThreads.java:231-267 | every reply built for a code in the table is well formed, so it reads back |
| Response.ValidatedAnswered | ServerThreads.java:231-240 | answerBody never throws for a status the validator yields |
| Response.ContentLengthMatchesBody | ServerThreads.java:246 | in every reply with a message, the Content-Length header parses to the body's length |
| Response.GetServesFile | ServerThreads.java:237-251 | a served GET of / or /index.html sends index.html with its length and date |
| Response.OtherRepliesEmpty | ServerThreads.java:253-266 | every other reply keeps its code and has the three plain headers and an empty body |
| Response.StringBuilder.constructor | ServerThreads.java:55 | a new answer buffer is empty |
| Response.StringBuilder.Append | ServerThreads.java:245 | append adds its argument at the end |
| Response.AnswerPutStatus | ServerThreads.java:207-221 | appends exactly the status line of the code |
| Response.AppendHeader | ServerThreads.java:245 | appends exactly one rendered header line |
| Response.AppendGetMessage | ServerThreads.java:245-251 | appends exactly the rendered message of a served GET |
| Response.AppendPlainMessage | ServerThreads.java:254-258 | appends exactly the rendered plain message |
| Response.AnswerBody | ServerThreads.java:231-267 | throws exactly when the reply function has none; otherwise appends exactly the reply's message, and nothing when it throws |
| Server.Chars | ServerThreads.java:91 | the characters of a run of reads, one per read, in order |
| Server.ReadCycle | ServerThreads.java:85-92 | a read ending at a not-ready character has read something; a blocked read has used all input; any other read uses some |
| Server.Respond | ServerThreads.java:54-66 | what one turn of run sends for a request: nothing when the line extraction or numStatus as written throws, else the status line and the message |
| Server.RespondIntended | ServerThreads.java:168-179 | the same with the Content-Length check its comment describes |
| Server.Session | ServerThreads.java:48-72 | the whole run over an input: the answers sent, the final state and the input left unread |
| Server.RespondAnswered | ServerThreads.java:58-63 | a request that validates and is built is answered with its status line and message |
| Server.StatesOf | MyHttpServer.java:60-61 | the states of the handlers, one per handler, in list order |
| Server.ServerThread.constructor | ServerThreads.java:36-42 | a new handler is LIVE, with its number and input, and has sent nothing |
| Server.ServerThread.Close | ServerThreads.java:286-297 | the handler is DEAD and nothing else changes |
| Server.ServerThread.ReadRequest | ServerThreads.java:80-102 | reads exactly one read cycle's characters, consumes them, and closes at the end of the stream |
| Server.ServerThread.Answer | ServerThreads.java:58-63 | the answer is what the handler's validation and builder give for the request, admission judged in the current registry |
| Server.ServerThread.Run | ServerThreads.java:48-72 | a DEAD handler does nothing; a LIVE one sends exactly the session's answers and ends in the session's state and input |
| Server.ServerThread.Serve | ServerThreads.java:54-66 | one turn of the loop moves the session forward by one read cycle and its answer |
| Server.Registry.constructor | MyHttpServer.java:33 | no handler yet, numbering from 1 |
| Server.Registry.Accept | MyHttpServer.java:38-42 | a fresh LIVE handler numbered with the next number is appended, and the numbering stays consistent |
| Server.Registry.CheckActive | MyHttpServer.java:57-65 | returns the number of LIVE handlers |
| Server.Registry.CheckAvailable | MyHttpServer.java:75-87 | true exactly when, at a position holding the handler, at most 5 handlers up to it are LIVE |
| ServerProperties.ReadThroughReady | ServerThreads.java:85-92 | reads after which the reader stays ready are collected and the read goes on |
| ServerProperties.RequestCut | ServerThreads.java:85-92 | a request is the characters up to the first one after which the reader is not ready |
| ServerProperties.EofCut | ServerThreads.java:86-89 | the end of the stream stops a read, whatever was read before it |
| ServerProperties.ReadCycleEof | ServerThreads.java:85-92 | where a read ends tells whether the input holds the end of the stream |
| ServerProperties.DeadIffEof | ServerThreads.java:53-89 | a handler turns DEAD exactly when its input reaches the end of the stream; otherwise it has used all of it |
| ServerProperties.RequestAnswered | ServerThreads.java:53-66 | a request read whole while LIVE has its answer, if any, sent before those of the rest |
| ServerProperties.PartialRequestDropped | ServerThreads.java:86-89 | characters cut short by the end of the stream go unanswered; the handler is DEAD and the rest stays unread |
| ServerProperties.NotReadyCountCut | ServerThreads.java:85-92 | each read cycle ending at a not-ready read uses exactly one of them |
| ServerProperties.AnswersBounded | ServerThreads.java:53-66 | at most one answer goes out per request read whole |
| ServerProperties.SilentIffThrows | ServerThreads.java:54-70 | a request goes unanswered exactly when numStatus as written throws on it, whatever the identity hash |
| ServerProperties.AnswerIsRendered | ServerThreads.java:58-63 | what is sent is the rendering of the built reply, under the validated status |
| ServerProperties.AnswerReadsBack | ServerThreads.java:58-63 | what is sent parses back as that reply |
| ServerProperties.StatusOfCodes | ServerThreads.java:141-198 | a validated request gets one of the six codes |
| ServerProperties.RefusedAnswered503 | ServerThreads.java:148-149 | an unadmitted handler answers every request with a non-empty line with 503 and an empty body |
| ServerProperties.PlainAnswered | ServerThreads.java:253-266 | a request validated to any code but a served GET is answered with the three plain headers and an empty body |
| ServerProperties.RespondDiffersOnlyOnLength | ServerThreads.java:164-179 | the handler and the corrected check answer differently only for an admitted POST to /simpleForm.html whose Content-Length disagrees, which the corrected check answers 400 |
| ServerProperties.PostAnsweredBothWays | ServerThreads.java:164-179 | a POST accepted as written and rejected by the corrected check is answered 200 by the handler and 400 by the corrected one |
| ServerProperties.ClientMismatchedPostAnswered | MyHttpClient.java:69-86 | the handler answers the client's POST announcing 5 body characters and carrying 2 with 200; the corrected check answers 400 |
| ServerProperties.ClientPostLine | MyHttpClient.java:78 | the client's POST line holds no newline and splits into its three tokens |
| ServerProperties.IndexServed | ServerThreads.java:233-251 | a GET of / or /index.html that validates to 200 is answered with index.html |
| ServerProperties.ClientGetAnswered | MyHttpClient.java:48-60 | the client's GET of the index, sent to an admitted handler, is answered with 200 and index.html |
| ServerProperties.ClientGetLine | MyHttpClient.java:52 | the client's GET line holds no newline and splits into its three tokens |
| ServerProperties.AvailableAt | MyHttpServer.java:75-87 | under the registry's numbering, checkAvailable judges a listed handler at its own position |
| ServerProperties.NewestAvailable | MyHttpServer.java:75-87 | a handler just accepted is served exactly when fewer than 5 handlers before it are LIVE |

## Left out

- Sockets, the accept loop's blocking, threads and their concurrent access
  to the registry are not modelled. The model is sequential: each
  operation sees the registry as it stands when it runs.
- Console output (`System.out.println`) is not modelled. It is
  unobservable to the client.
- `sendAnswer` writing to the socket is modelled as appending the answer
  to the handler's `output`. Write and flush failures are not modelled.
- `readFile` and the file's last-modified date are parameters (`Env`).
  The file system, the line-by-line `Scanner` copy and the
  missing-file exception are not modelled.
- The current date is a parameter `now`, fixed for one run of the
  handler, rather than a clock read at each answer.
- `Date.toString` formats are not modelled.
- `close()`: an IOException from closing the reader, writer or socket is
  not modelled. Close always succeeds and the handler turns DEAD.
- An IOException from `read()` or `ready()` is not modelled.
- A `read()` that would block forever is modelled as the input running
  out while the reader promised more. `Run` then stops with the handler
  LIVE.
- The static `liveThreadNum` is a local counter in `CheckActive` and
  `CheckAvailable`. In a sequential model nothing else reads it.
- Server.ServerThread.Answer asks the registry before numStatus runs,
  instead of inside it, and passes the verdict in. `checkAvailable` only
  reads state, so the verdict is the same; it is not asked at all when
  the request line is empty, and the result is 404 either way.
- Validator.NumStatus receives the POST body check's result as a
  parameter, instead of computing it inside its POST branch. The check
  only reads, and its exception is a value, so the verdict is the same.
- Server.Session: admission is fixed for the whole session. Within one
  handler's run, the other handlers' states do not change in a
  sequential model.
- JavaString.ParseInt accepts ASCII digits only. Java's `Character.digit`
  also accepts other Unicode decimal digits.
- The client reading the answer (`readAnswer`) is I/O and is not
  modelled; `Response.ParseReply` stands for it.
- Response.AnswerFor, Validator.BodyCheckIntended and Server.ReadResult
  work on Dafny characters, which are Unicode scalar values. Java's
  `String.length()` and `BufferedReader.read()` count UTF-16 code units.
  So for text with characters outside the Basic Multilingual Plane the
  Content-Length the model writes, and the body length it compares, are
  smaller than Java's. A read also cannot carry a lone surrogate.

## Findings

| source | as written | input that shows it | evidently intended | confidence | as-written member | corrected member |
|---|---|---|---|---|---|---|
| ServerThreads.java:171 | the POST Content-Length loop scans `requestAllLines.toString().split(": ")`, the identity string of the array (`[Ljava.lang.String;@` and a hex hash), which never equals "Content-Length", so the body is never checked | the client's POST to /simpleForm.html with header `Content-Length: 5` and body `ab`: accepted with 200 | compare the value of the request's Content-Length header line with the length of the body and answer 400 on a mismatch | not executed | ServerProperties.ClientMismatchedPostAnswered | ValidatorProperties.ClientPost |

# Proofs about the servers' state machines and data structures

The repository holds the example programs of a book on Linux server programming and a small
proxy, springsnail. Between the socket calls they contain several state machines and data
structures whose correctness is not visible from any one function. This project models them in
Dafny and proves what they are for.

* **Two request parsers** (8-3 and 15-5). A line scanner works in place on a buffer that grows
  between calls, under a state machine for the request line and the headers. `RequestGrammar`
  says what a stream means, `RequestParser` and `HttpConn` prove the in-place parsers against
  it: the answer does not depend on how the stream is cut, and it is the one a grammar of
  streams deserves. The request line is the lenient form of section 3 of RFC 9112, with the CR LF
  framing of section 2.2. `HeaderText` and `Replies` are the other direction of 15-5: what it
  prints, its own header parser reads back. `RequestBody` is what becomes of a body there.
* **Three timer containers** (chapter 11). `TimeWheel`, `TimeHeap` and `SortedTimerList` are
  efficient forms of one simple thing, a bag of deadlines. The wheel is proved against a
  countdown (`Countdown`), the heap and the list against multisets and stable insertion, and
  `TimerAgreement` runs one script on a heap and a list side by side: lazy and eager
  cancellation fire the same timers.
* **A thread pool** (15-3). `ThreadPool` has the steps of any number of appending threads and
  workers around one queue, one lock and one semaphore, and proves what every interleaving keeps.
* **springsnail's connection pool and relay.** `PoolBooks` is the ledger of the three maps,
  `ConnPool` the manager that keeps it, `Relay` one connection with its two buffers, and
  `NullEntries` the used map without the assumption that only its keys are looked up.
* **Process tables.** `RoundRobin` (15-1) is the choice of a child for a connection while
  children die; `UserTable` (13-4) is the swap-with-last table and its reverse index.

`CText` has the C string operations the parsers use, defined by what they mean on the string
that starts at a position; `Sequences` and `Cyclic` hold what several models share.

Sizes that the programs fix (buffer sizes, slots and slot interval, number of processes, users)
are parameters here. Calls into the system are inputs: what `recv`, `send`, `connect`, `accept`,
`fork` and `waitpid` return, and the current time. Callbacks append to a ghost log.

## Findings

Places where the code does something its surroundings do not suggest; each is stated by a member
of the model.

* 15-5 leaves a stream with a stray CR or LF unanswered for good (`HeaderText.StuckForGood`),
  where 8-3 answers BAD_REQUEST; on all other streams the two agree (`HeaderText.AgainstSmallParser`).
* In 15-5 the reply to an empty file is written and then refused, because its case falls through
  to `default` (`HttpConn.Conn.ProcessWrite`).
* In 15-5 the announced length of a file is its size exactly when the size is an `int`
  (`Replies.FileHead`).
* `add_headers` of 15-5 ignores refusals. Exactly when a buffer is so full that the length line
  does not fit but the blank line still does, the block is ended without a length
  (`Replies.LengthCanBeLost`). No call in the program reaches this: each follows a short status
  line into an empty buffer (`Replies.NoCallLosesLength`, `Replies.ReplyIsWhole`).
* In 15-5 a body does not survive being cut, because after an incomplete body the line scanner
  moves on over it. A client that sends exactly what it announced is answered if and only if
  everything before the last piece is empty, or begins with LF or with a CR that no LF follows
  (`RequestBody.BodyAccepted`, `RequestBody.CutBodies`, `HttpConn.Conn.ServeBody`).
* In 15-5 a negative announced length is accepted at once, and `parse_content` writes its NUL in
  front of the body (`HttpConn.NegativeLength`). Whatever the length, an accepted body's NUL is
  inside the buffer if and only if the length does not lead in front of the buffer, and the body
  does not end, unscanned, exactly where the buffer does (`HttpConn.Conn.NulFitsExactly`).
* A thread pool that is stopped can leave accepted requests unprocessed, once all workers have
  left (`ThreadPool.StoppedAtRest`, `ThreadPool.RequestLeftBehind`).
* In springsnail, when one batch of events holds both descriptors of a pair and the first event
  gives the pair up, the second one files a null. A later pair that gets that descriptor number
  is found under both its descriptors if and only if neither is such a stale key, and stays so
  for its whole life (`NullEntries.Used.PickFiles`, `NullEntries.Used.FiledForLife`,
  `NullEntries.LostPair`); the count of used connections is off by the stale keys
  (`NullEntries.Used.Counts`), which are known exactly (`NullEntries.Used.StaleExactly`).
* `adjust_timer` of the sorted list, given a deadline that moved before an earlier node, leaves
  the list out of order; it keeps the order exactly when the deadline has only grown
  (`SortedTimerList.SortTimerList.AdjustTimer`).
* A thread pool with `m_max_requests` lets one request more wait (`ThreadPool.FifoAndBounded`,
  `ThreadPool.BoundIsReached`), because the test is made with `>` before the push.
* In 13-4 removing the last record writes the dead process id's slot again
  (`UserTable.DeadSlotCleared`), so an index entry does not mean that its process is alive.
* A wheel timer fires one call of `tick` later than its number of ticks, since `tick` handles a
  slot before it moves the hand (`TimeWheel.Wheel.FiresOnSchedule`).
* Dead branches: the LF-after-CR case of both line scanners, `INTERNAL_ERROR` of the state
  switches, HEAD in 15-5, the full-buffer check of `add_response`, the test for an unknown
  process in 13-4, and the last branch of springsnail's `process`.

## Model

| member | source | states |
|---|---|---|
| RequestGrammar.ChunkIndependence | Linux高性能服务器编程/codes示例/8/8-3httpparser.cpp:210-240 | for every stream and every way of cutting it, also between CR and LF, the first answer other than NO_REQUEST given after some chunk is the answer to the whole stream |
| RequestGrammar.FirstAnswerIs | Linux高性能服务器编程/codes示例/8/8-3httpparser.cpp:225-240 | the first answer is the one to the first k chunks if there was none to fewer |
| RequestGrammar.AcceptsExactly | Linux高性能服务器编程/codes示例/8/8-3httpparser.cpp:52-99 | three words with blanks between them are accepted exactly for GET in any case, an accepted URL and HTTP/1.1 in any case |
| RequestGrammar.AcceptedLines | Linux高性能服务器编程/codes示例/8/8-3httpparser.cpp:52-99 | two accepted lines: words in both cases, spaces and tabs, both kinds of URL |
| RequestGrammar.RefusedLines | Linux高性能服务器编程/codes示例/8/8-3httpparser.cpp:52-99 | three refused lines: wrong method, version and URL |
| RequestGrammar.CaseDoesNotMatter | Linux高性能服务器编程/codes示例/8/8-3httpparser.cpp:62-84 | whether a line is accepted does not depend on the case of any of its letters |
| CText.EqualFoldMeans | Linux高性能服务器编程/codes示例/8/8-3httpparser.cpp:62-84 | two texts are equal for strcasecmp exactly when they differ only in letters that stand in both cases |
| CText.BlankMeans | Linux高性能服务器编程/codes示例/8/8-3httpparser.cpp:54-78 | blanks are spaces and tabs |
| RequestGrammar.RunStable | Linux高性能服务器编程/codes示例/8/8-3httpparser.cpp:121-167 | an answer other than NO_REQUEST is never revised by later bytes, from any parser state |
| RequestGrammar.GetMeaning | Linux高性能服务器编程/codes示例/8/8-3httpparser.cpp:121-167 | GET_REQUEST exactly when the stream begins with an accepted request line, non-empty header lines and an empty one, each ended by CR LF, with no stray CR or LF before that |
| RequestGrammar.BadMeaning | Linux高性能服务器编程/codes示例/8/8-3httpparser.cpp:121-167 | BAD_REQUEST exactly when, after good lines, a stray CR or LF or a refused first line follows |
| RequestGrammar.OpenMeaning | Linux高性能服务器编程/codes示例/8/8-3httpparser.cpp:159-162 | NO_REQUEST exactly when the stream is good lines and an unfinished one, perhaps up to its CR |
| RequestGrammar.NeverInternalError | Linux高性能服务器编程/codes示例/8/8-3httpparser.cpp:153-156 | no stream reaches the default branch of the state switch |
| RequestGrammar.ScanMeetsGrammar | Linux高性能服务器编程/codes示例/8/8-3httpparser.cpp:52-99 | the left-to-right scan of the request line accepts exactly the texts that can be cut into the method GET, blanks, an accepted URL, blanks and HTTP/1.1 |
| RequestGrammar.TargetMeetsGrammar | Linux高性能服务器编程/codes示例/8/8-3httpparser.cpp:71-93 | the part from the URL on is accepted exactly when it is an accepted URL, blanks and the version |
| RequestGrammar.NextLine | Linux高性能服务器编程/codes示例/8/8-3httpparser.cpp:18-50 | a complete line is a text without CR and LF, CR LF and the rest of the stream |
| RequestGrammar.NextLineAt | Linux高性能服务器编程/codes示例/8/8-3httpparser.cpp:18-50 | what the line scan finds, from where the first CR or LF stands: open, broken, or the text before it and the bytes after it |
| RequestGrammar.NextLineStable | Linux高性能服务器编程/codes示例/8/8-3httpparser.cpp:18-50 | more bytes do not change how a finished or broken line was read |
| RequestGrammar.RunFramed | Linux高性能服务器编程/codes示例/8/8-3httpparser.cpp:125-158 | good lines only move the parser on: what follows them decides the answer |
| RequestGrammar.Explain | Linux高性能服务器编程/codes示例/8/8-3httpparser.cpp:121-167 | each answer comes with the decomposition of the stream that justifies it |
| RequestParser.Session.ParseLine | Linux高性能服务器编程/codes示例/8/8-3httpparser.cpp:18-50 | in place, from any resumed position: open, broken or completed exactly as the pending bytes say; a completed line is NUL-terminated and what follows is untouched; the branch for an LF after a CR is dead |
| RequestParser.Session.EndLine | Linux高性能服务器编程/codes示例/8/8-3httpparser.cpp:30-35 | the two NULs make the line a C string and leave the bytes behind it alone |
| RequestParser.CutWord | Linux高性能服务器编程/codes示例/8/8-3httpparser.cpp:54-59 | strpbrk, a NUL and strspn cut a C string into its first word and the rest without its blanks, and write nothing outside it |
| RequestParser.Session.ParseRequestLine | Linux高性能服务器编程/codes示例/8/8-3httpparser.cpp:52-99 | accepts exactly the texts the scan accepts, goes to the header state only then, and writes only inside the line |
| RequestParser.Session.ParseTarget | Linux高性能服务器编程/codes示例/8/8-3httpparser.cpp:71-99 | the same for the part from the URL on |
| RequestParser.UrlPath | Linux高性能服务器编程/codes示例/8/8-3httpparser.cpp:84-93 | the pointer stands at a slash exactly for the accepted URLs |
| RequestParser.Session.ParseHeaders | Linux高性能服务器编程/codes示例/8/8-3httpparser.cpp:101-119 | GET_REQUEST exactly for the empty line |
| RequestParser.Session.TakeLine | Linux高性能服务器编程/codes示例/8/8-3httpparser.cpp:127-157 | one turn of the state switch keeps the answer owed to the stream and every invariant of the position |
| RequestParser.Session.ParseContent | Linux高性能服务器编程/codes示例/8/8-3httpparser.cpp:121-167 | the answer is the one all bytes received so far deserve, however they arrived; after NO_REQUEST the parser can resume |
| RequestParser.Session.Receive | Linux高性能服务器编程/codes示例/8/8-3httpparser.cpp:210-224 | new bytes extend the stream and disturb nothing |
| RequestParser.Session.constructor | Linux高性能服务器编程/codes示例/8/8-3httpparser.cpp:203-209 | an empty buffer, indices 0, the request-line state |
| RequestParser.Serve | Linux高性能服务器编程/codes示例/8/8-3httpparser.cpp:210-240 | the reply main sends depends only on the bytes delivered before close or error, not on how recv cut them |
| RequestParser.DeliveredIs | Linux高性能服务器编程/codes示例/8/8-3httpparser.cpp:210-224 | what is delivered is all pieces that recv returns before it returns anything else, joined, and nothing behind |
| RequestParser.RecvMay | Linux高性能服务器编程/codes示例/8/8-3httpparser.cpp:212 | recv may return any non-empty pieces that fit the buffer |
| RequestParser.LineCompleted | Linux高性能服务器编程/codes示例/8/8-3httpparser.cpp:30-35 | the completed line read back as a C string |
| HttpConn.Conn.ParseLine | Linux高性能服务器编程/codes示例/15/15-5http_conn.cpp:97-131 | as in the smaller parser; the buffer is unchanged unless a line was completed; the LF-after-CR branch is dead |
| HttpConn.Conn.EndLine | Linux高性能服务器编程/codes示例/15/15-5http_conn.cpp:109-114 | the two NULs end the line; text, rest and index |
| HttpConn.Conn.ParseRequestLine | Linux高性能服务器编程/codes示例/15/15-5http_conn.cpp:162-207 | accepts the same request lines as the smaller parser, and m_url then names, inside the line, the path of their URL; the method stays GET, so the HEAD branch is never taken |
| HttpConn.Conn.ParseTarget | Linux高性能服务器编程/codes示例/15/15-5http_conn.cpp:181-207 | version first, then URL; the state changes only on success, and m_url then names the path |
| HttpConn.Conn.ParseHeaders | Linux高性能服务器编程/codes示例/15/15-5http_conn.cpp:209-254 | the blank line decides between GET_REQUEST and a body to come; any other line changes exactly the length, the flag or the host it names |
| HttpConn.Conn.Switch | Linux高性能服务器编程/codes示例/15/15-5http_conn.cpp:280-318 | what one line does in each state to the state, the answer and all stored headers, the URL’s path and the host included; no byte outside it is written, and the names stay in front of the next line |
| RequestParser.PathFound | Linux高性能服务器编程/codes示例/15/15-5http_conn.cpp:194-203 | the pointer kept for an accepted URL names its path: all of it, or the part from the first slash after http:// and the host |
| HttpConn.Conn.TakeLine | Linux高性能服务器编程/codes示例/15/15-5http_conn.cpp:276-318 | one turn of the state switch: reports what the stream deserves or leaves a resumable parser |
| HttpConn.Conn.ProcessRead | Linux高性能服务器编程/codes示例/15/15-5http_conn.cpp:267-322 | up to the blank line: BAD_REQUEST, GET_REQUEST or the body state with exactly the stored length, flag, URL path and host, and the rest, that the whole stream since init deserves; otherwise NO_REQUEST and the parser can resume |
| HttpConn.Conn.ProcessBody | Linux高性能服务器编程/codes示例/15/15-5http_conn.cpp:273-311 | one call in the body state, where the NUL fits: accepted exactly when as many bytes as announced follow the scanner, otherwise the scanner stands behind the complete lines of what arrived; a positive length leaves the stored headers alone |
| HttpConn.Conn.CheckBody | Linux高性能服务器编程/codes示例/15/15-5http_conn.cpp:276-312 | one turn of the loop in the body state |
| HttpConn.Conn.ParseContent | Linux高性能服务器编程/codes示例/15/15-5http_conn.cpp:256-265 | accepts exactly when enough bytes follow the scanner, and then writes one NUL, behind as many bytes as announced from the start of the line |
| HttpConn.Conn.ReceiveBody | Linux高性能服务器编程/codes示例/15/15-5http_conn.cpp:143-157 | new bytes follow the ones the scanner has not passed |
| RequestBody.EnoughBytes | Linux高性能服务器编程/codes示例/15/15-5http_conn.cpp:256-312 | a body is accepted exactly when some chunk, with the bytes of the earlier ones that the scanner has not passed, is as long as was announced |
| RequestBody.BodyAccepted | Linux高性能服务器编程/codes示例/15/15-5http_conn.cpp:256-312 | a client that sends exactly the body it announced is answered if and only if everything before the last piece is empty, or begins with LF or with a CR that no LF follows |
| RequestBody.BodyInOnePiece | Linux高性能服务器编程/codes示例/15/15-5http_conn.cpp:256-312 | in particular, a body that begins with any other byte is answered if and only if it arrives in one piece |
| RequestBody.ScannedInPieces | Linux高性能服务器编程/codes示例/15/15-5http_conn.cpp:97-131 | scanning what has arrived and then the rest is scanning it all |
| RequestBody.NothingScanned | Linux高性能服务器编程/codes示例/15/15-5http_conn.cpp:97-131 | the scanner cannot move exactly in those beginnings, and where it stopped it cannot move |
| RequestBody.CutBodies | Linux高性能服务器编程/codes示例/15/15-5http_conn.cpp:256-312 | an accepted and a refused body of three bytes, both in two pieces |
| HttpConn.Conn.ServeBody | Linux高性能服务器编程/codes示例/15/15-5http_conn.cpp:256-312 | the driver over arriving chunks: its answer and the bytes it leaves are those of the chunks, and the stored headers stay |
| HttpConn.Conn.NextBodyLine | Linux高性能服务器编程/codes示例/15/15-5http_conn.cpp:273-312 | the scanner takes the next line of an incomplete body, which is then still incomplete |
| HttpConn.Conn.NulFitsExactly | Linux高性能服务器编程/codes示例/15/15-5http_conn.cpp:258-261 | when a body is accepted, the NUL behind it is inside the buffer if and only if the length does not lead in front of the buffer and the body does not end, unscanned, exactly where the buffer does |
| HttpConn.NegativeLength | Linux高性能服务器编程/codes示例/15/15-5http_conn.cpp:209-261 | an input: a request that announces a negative length comes into the body state, where it is accepted at once and the NUL goes before the body |
| RequestBody.UnscannedByLines | Linux高性能服务器编程/codes示例/15/15-5http_conn.cpp:97-131 | the scanner takes the lines of a body one after the other |
| HttpConn.Conn.Receive | Linux高性能服务器编程/codes示例/15/15-5http_conn.cpp:143-157 | new bytes extend the stream and keep the parser resumable |
| HttpConn.Conn.Init | Linux高性能服务器编程/codes示例/15/15-5http_conn.cpp:78-95 | a kept connection starts with no stored header, an empty write buffer and a fresh parser |
| HttpConn.Conn.constructor | Linux高性能服务器编程/codes示例/15/15-5http_conn.cpp:78-95 | the same for a new connection |
| HeaderText.HeaderChunks | Linux高性能服务器编程/codes示例/15/15-5http_conn.cpp:267-322 | up to the blank line the outcome does not depend on how the stream is cut |
| HeaderText.FirstOutcomeIs | Linux高性能服务器编程/codes示例/15/15-5http_conn.cpp:267-322 | the first outcome is the one to the first k chunks if there was none to fewer |
| HeaderText.ReadStable | Linux高性能服务器编程/codes示例/15/15-5http_conn.cpp:267-322 | an outcome, its headers included, is never revised by later bytes |
| HeaderText.HeadersMeaning | Linux高性能服务器编程/codes示例/15/15-5http_conn.cpp:209-254 | a stream is read as a request with these stored headers exactly when it is a request line, header lines and a blank line, where the URL path is that of the request line, the flag is set if and only if some line says keep-alive, and length and host are those of the last lines that name them, or 0 and unknown |
| HeaderText.Taken | Linux高性能服务器编程/codes示例/15/15-5http_conn.cpp:226-247 | each header line changes the value it names and nothing else |
| RequestGrammar.UrlOfParts | Linux高性能服务器编程/codes示例/15/15-5http_conn.cpp:181-203 | the URL the scan finds is the one of the grammar’s parts |
| RequestGrammar.PathIsUnique | Linux高性能服务器编程/codes示例/15/15-5http_conn.cpp:194-203 | a URL has one path: all of it, or the part from the first slash behind http:// and the host |
| HttpConn.NameKept | Linux高性能服务器编程/codes示例/15/15-5http_conn.cpp:162-254 | writes behind a stored name leave it as it is |
| HeaderText.ReadFramed | Linux高性能服务器编程/codes示例/15/15-5http_conn.cpp:267-322 | good lines only move the reader on, with their headers stored |
| HeaderText.StuckMeaning | Linux高性能服务器编程/codes示例/15/15-5http_conn.cpp:97-131 | a stream is stuck exactly when good lines, a plain text and a CR or LF that ends no line stand at its front |
| HeaderText.AnswerStillPossible | Linux高性能服务器编程/codes示例/15/15-5http_conn.cpp:267-322 | some continuation of a stream is answered exactly when the stream is not stuck |
| HeaderText.StuckForGood | Linux高性能服务器编程/codes示例/15/15-5http_conn.cpp:273-274 | after a stray CR or LF no further bytes ever produce an answer |
| HeaderText.AgainstSmallParser | Linux高性能服务器编程/codes示例/15/15-5http_conn.cpp:97-322 | against 8-3: the same requests are accepted, the same request lines refused, and the two differ exactly on streams with a stray CR or LF |
| HeaderText.HeadersReadBack | Linux高性能服务器编程/codes示例/15/15-5http_conn.cpp:209-254 | the printed header block, followed by anything, is read back as exactly the printed length and flag, and the reader stops at the blank line |
| HeaderText.TakeLength | Linux高性能服务器编程/codes示例/15/15-5http_conn.cpp:235-240 | the printed Content-Length line stores exactly the number printed, for every int |
| HeaderText.TakeLinger | Linux高性能服务器编程/codes示例/15/15-5http_conn.cpp:226-234 | the printed Connection line sets the flag exactly for keep-alive |
| HeaderText.PrintedReadsBack | Linux高性能服务器编程/codes示例/15/15-5http_conn.cpp:235-240 | atol, stored in an int, undoes %d for every int |
| HeaderText.DecimalValue | Linux高性能服务器编程/codes示例/15/15-5http_conn.cpp:437 | after the digits of a printed number, reading goes on with that number |
| HeaderText.ValueOfDigits | Linux高性能服务器编程/codes示例/15/15-5http_conn.cpp:239 | a further decimal digit makes the number ten times as large, plus that digit |
| HeaderText.ValueStops | Linux高性能服务器编程/codes示例/15/15-5http_conn.cpp:239 | whatever but a digit follows the digits does not count |
| HeaderText.AtolMeans | Linux高性能服务器编程/codes示例/15/15-5http_conn.cpp:239 | atol reads white space, a sign and digits, as far as a 64-bit long goes, and nothing behind them |
| HeaderText.PrintedThenMore | Linux高性能服务器编程/codes示例/15/15-5http_conn.cpp:239 | atol undoes %d, whatever but a digit follows |
| HeaderText.NamedHeader | Linux高性能服务器编程/codes示例/15/15-5http_conn.cpp:226-246 | what a header line does, whatever the case of its name and the blanks behind it |
| HeaderText.OtherHeader | Linux高性能服务器编程/codes示例/15/15-5http_conn.cpp:247-250 | any other line changes nothing |
| HeaderText.LengthThenMore | Linux高性能服务器编程/codes示例/15/15-5http_conn.cpp:235-240 | a length that anything but a digit follows is stored all the same |
| HttpConn.Conn.AddResponse | Linux高性能服务器编程/codes示例/15/15-5http_conn.cpp:405-421 | accepted exactly when it fits with two bytes to spare; a rejected text changes neither the accepted bytes nor their number; the check for a full buffer never fires |
| HttpConn.Conn.Vsnprintf | Linux高性能服务器编程/codes示例/15/15-5http_conn.cpp:413 | at most n - 1 bytes of the text and a NUL are written, and no other byte is touched |
| HttpConn.Conn.AddStatusLine | Linux高性能服务器编程/codes示例/15/15-5http_conn.cpp:423-426 | appends the status line if it fits, and says whether it did |
| HttpConn.Conn.AddContentLength | Linux高性能服务器编程/codes示例/15/15-5http_conn.cpp:435-438 | appends the length line if it fits, and says whether it did |
| HttpConn.Conn.AddLinger | Linux高性能服务器编程/codes示例/15/15-5http_conn.cpp:440-443 | appends the line for the connection flag if it fits, and says whether it did |
| HttpConn.Conn.AddBlankLine | Linux高性能服务器编程/codes示例/15/15-5http_conn.cpp:445-448 | appends the blank line if it fits, and says whether it did |
| HttpConn.Conn.AddContent | Linux高性能服务器编程/codes示例/15/15-5http_conn.cpp:450-453 | appends the body if it fits, and says whether it did |
| HttpConn.Conn.AddHeaders | Linux高性能服务器编程/codes示例/15/15-5http_conn.cpp:428-433 | each of the three lines is tried, whatever happened to the one before |
| HttpConn.Conn.AddReply | Linux高性能服务器编程/codes示例/15/15-5http_conn.cpp:461-466 | status line, headers for the body, body; succeeds exactly when the body fits behind what was accepted |
| HttpConn.Conn.ProcessWrite | Linux高性能服务器编程/codes示例/15/15-5http_conn.cpp:455-532 | the bytes, the writev pieces and the result for every outcome and buffer; the case of an empty file writes a whole reply and then falls through to the failing default |
| Replies.FillsAll | Linux高性能服务器编程/codes示例/15/15-5http_conn.cpp:405-448 | a sequence of texts is written completely exactly when all of it fits together |
| Replies.AddedHeadersReadBack | Linux高性能服务器编程/codes示例/15/15-5http_conn.cpp:428-448 | for every int length and either flag, what add_headers writes into an empty buffer is read back as that length and flag, up to the blank line; a length other than 0 makes the reader expect a body |
| HttpConn.HeadersRoundTrip | Linux高性能服务器编程/codes示例/15/15-5http_conn.cpp:97-448 | what add_headers leaves in the buffer of one connection, put behind a request line and received by another one, makes that one store the same length and flag and the path of the URL, and stop before the body |
| HttpConn.ReadAll | Linux高性能服务器编程/codes示例/15/15-5http_conn.cpp:133-322 | what a new connection reports on a stream it receives at once |
| HttpConn.WrittenHeaders | Linux高性能服务器编程/codes示例/15/15-5http_conn.cpp:428-433 | the bytes add_headers leaves in an empty buffer |
| Replies.ReplyIsWhole | Linux高性能服务器编程/codes示例/15/15-5http_conn.cpp:459-521 | each short reply goes whole into an empty buffer, and a client reads from its headers exactly the length of the body that follows |
| Replies.BadRequestText | Linux高性能服务器编程/codes示例/15/15-5http_conn.cpp:469-478 | every byte of the reply, for either flag |
| Replies.ForbiddenText | Linux高性能服务器编程/codes示例/15/15-5http_conn.cpp:489-498 | every byte of the reply, for either flag |
| Replies.NotFoundText | Linux高性能服务器编程/codes示例/15/15-5http_conn.cpp:479-488 | every byte of the reply, for either flag |
| Replies.InternalErrorText | Linux高性能服务器编程/codes示例/15/15-5http_conn.cpp:459-468 | every byte of the reply, for either flag |
| Replies.EmptyFileText | Linux高性能服务器编程/codes示例/15/15-5http_conn.cpp:512-521 | every byte of the reply to an empty file, for either flag |
| Replies.FileHeadText | Linux高性能服务器编程/codes示例/15/15-5http_conn.cpp:499-511 | every byte in front of a file, for either flag |
| Replies.ConnectionLine | Linux高性能服务器编程/codes示例/15/15-5http_conn.cpp:440-443 | the line for each flag |
| Replies.FileHead | Linux高性能服务器编程/codes示例/15/15-5http_conn.cpp:499-511 | the head in front of a file goes whole and announces the size exactly when the size is an int |
| Replies.LengthCanBeLost | Linux高性能服务器编程/codes示例/15/15-5http_conn.cpp:428-433 | add_headers ends the block without a length exactly when there is no room for the length line but still for the blank line behind whatever the connection line left |
| Replies.NoCallLosesLength | Linux高性能服务器编程/codes示例/15/15-5http_conn.cpp:455-532 | which no call in the program meets: each follows a short status line into an empty buffer |
| Replies.ReplyFits | Linux高性能服务器编程/codes示例/15/15-5http_conn.cpp:405-466 | a short reply never fails in an empty buffer |
| TimeWheel.Wheel.FiresOnSchedule | Linux高性能服务器编程/codes示例/11/11-5tw_timer.h:56-153 | in every state a run can reach, an undeleted timer added with a timeout is fired by the next tick if and only if that tick is call number max(1, timeout / TI) + 1 after the add, whatever else was added and deleted |
| TimeWheel.Wheel.Tick | Linux高性能服务器编程/codes示例/11/11-5tw_timer.h:113-153 | fires exactly the timers with no tick left, each once, and brings every other one exactly one tick closer |
| TimeWheel.Wheel.Pass | Linux高性能服务器编程/codes示例/11/11-5tw_timer.h:115-151 | the loop over the slot: the timers without rotation are gone and fired, every other one in the slot paid one rotation |
| TimeWheel.Wheel.Expire | Linux高性能服务器编程/codes示例/11/11-5tw_timer.h:127-149 | the fired timer leaves the chain, whether it is the head or not; the walk goes on at the next one |
| TimeWheel.Wheel.PassOver | Linux高性能服务器编程/codes示例/11/11-5tw_timer.h:120-124 | a timer with rotations left pays one and stays |
| TimeWheel.RemainingTicks | Linux高性能服务器编程/codes示例/11/11-5tw_timer.h:113-153 | paying rotations and moving the hand amounts to one tick of the countdown |
| TimeWheel.HandMoves | Linux高性能服务器编程/codes示例/11/11-5tw_timer.h:120-152 | one move of the hand lowers rotation * N + distance by exactly one, and the distance is 0 only for the slot at hand |
| TimeWheel.Wheel.AddTimer | Linux高性能服务器编程/codes示例/11/11-5tw_timer.h:56-86 | a negative timeout adds nothing; otherwise the new timer has exactly the ticks asked for and no other changes |
| TimeWheel.Wheel.Insert | Linux高性能服务器编程/codes示例/11/11-5tw_timer.h:62-85 | the new timer joins the countdown |
| TimeWheel.Wheel.NewTimer | Linux高性能服务器编程/codes示例/11/11-5tw_timer.h:62-73 | slot and rotation stand for exactly the ticks wanted |
| TimeWheel.PlacedAt | Linux高性能服务器编程/codes示例/11/11-5tw_timer.h:71-72 | rotation and slot computed by division and remainder stand for exactly the ticks wanted |
| TimeWheel.AtLeastOnce | Linux高性能服务器编程/codes示例/11/11-5tw_timer.h:62-70 | the ticks of a timeout are max(1, timeout / TI) |
| TimeWheel.Wheel.PushIn | Linux高性能服务器编程/codes示例/11/11-5tw_timer.h:74-84 | the new timer becomes the head of its doubly linked chain |
| TimeWheel.Wheel.Push | Linux高性能服务器编程/codes示例/11/11-5tw_timer.h:74-84 | and the other chains stay as they are |
| TimeWheel.Wheel.DelTimer | Linux高性能服务器编程/codes示例/11/11-5tw_timer.h:87-112 | removes exactly that timer; null changes nothing |
| TimeWheel.Wheel.Remove | Linux高性能服务器编程/codes示例/11/11-5tw_timer.h:93-111 | the countdown loses exactly that timer |
| TimeWheel.Wheel.UnlinkIn | Linux高性能服务器编程/codes示例/11/11-5tw_timer.h:93-111 | head or inner, the chain without the timer stays doubly linked |
| TimeWheel.Wheel.Unlink | Linux高性能服务器编程/codes示例/11/11-5tw_timer.h:93-111 | one chain loses one timer, the others are untouched |
| TimeWheel.Wheel.constructor | Linux高性能服务器编程/codes示例/11/11-5tw_timer.h:36-42 | an empty wheel |
| Countdown.CountsDown | Linux高性能服务器编程/codes示例/11/11-5tw_timer.h:113-153 | whatever else is added or deleted, a timer counts down one per tick and is then gone |
| Countdown.FiresOnce | Linux高性能服务器编程/codes示例/11/11-5tw_timer.h:56-153 | a timer added with k ticks is due in call k + 1 of tick and in no other |
| Countdown.StaysAway | Linux高性能服务器编程/codes示例/11/11-5tw_timer.h:87-153 | a timer that is gone does not come back |
| Countdown.AfterMore | Linux高性能服务器编程/codes示例/11/11-5tw_timer.h:56-153 | the countdown after two runs of events, one behind the other |
| Countdown.TicksMeans | Linux高性能服务器编程/codes示例/11/11-5tw_timer.h:113-153 | ticks are counted |
| Countdown.TickMeans | Linux高性能服务器编程/codes示例/11/11-5tw_timer.h:113-153 | what is due and what is left, timer by timer |
| SortedTimerList.SortTimerList.AddTimer | Linux高性能服务器编程/codes示例/11/11-2lst_timer.h:43-62 | equals stable insertion behind every deadline that is not later, and keeps list and links |
| SortedTimerList.SortTimerList.Insert | Linux高性能服务器编程/codes示例/11/11-2lst_timer.h:49-61 | the same for a timer that is not null |
| SortedTimerList.SortTimerList.AddFrom | Linux高性能服务器编程/codes示例/11/11-2lst_timer.h:146-171 | from any node: links the timer in before the first later one, or at the end, which moves tail |
| SortedTimerList.SortTimerList.Add | Linux高性能服务器编程/codes示例/11/11-2lst_timer.h:49-61 | empty list, new head, or the walk |
| SortedTimerList.SortTimerList.LinkFirst | Linux高性能服务器编程/codes示例/11/11-2lst_timer.h:54-60 | a new head |
| SortedTimerList.SortTimerList.Link | Linux高性能服务器编程/codes示例/11/11-2lst_timer.h:154-157 | four pointer writes put a node between two neighbours |
| SortedTimerList.SortTimerList.LinkNext | Linux高性能服务器编程/codes示例/11/11-2lst_timer.h:154-155 | the two forward ones |
| SortedTimerList.SortTimerList.LinkPrev | Linux高性能服务器编程/codes示例/11/11-2lst_timer.h:156-157 | the two backward ones |
| SortedTimerList.SortTimerList.HangFirst | Linux高性能服务器编程/codes示例/11/11-2lst_timer.h:56-58 | the links of a new head |
| SortedTimerList.SortTimerList.AdjustTimer | Linux高性能服务器编程/codes示例/11/11-2lst_timer.h:63-87 | moves the timer back to the first place where a later one follows; the list is in order afterwards if and only if the deadline had only grown, and then this equals removal and stable insertion |
| SortedTimerList.SortTimerList.MoveBack | Linux高性能服务器编程/codes示例/11/11-2lst_timer.h:69-86 | the pointer work of that, from any shape |
| SortedTimerList.GrownExactly | Linux高性能服务器编程/codes示例/11/11-2lst_timer.h:63-87 | moving back puts the deadlines in order exactly when the others are in order and those before it are not later |
| SortedTimerList.SortTimerList.Place | Linux高性能服务器编程/codes示例/11/11-2lst_timer.h:146-171 | the two exits of the walk: before a later node, or as the new tail |
| SortedTimerList.SortTimerList.CutFirst | Linux高性能服务器编程/codes示例/11/11-2lst_timer.h:101-104 | the node behind the first, if there is one, becomes the head |
| SortedTimerList.SortTimerList.CutLast | Linux高性能服务器编程/codes示例/11/11-2lst_timer.h:108-111 | the node before the last becomes the tail |
| SortedTimerList.SortTimerList.Bypass | Linux高性能服务器编程/codes示例/11/11-2lst_timer.h:115-116 | the neighbours of a node point past it |
| SortedTimerList.ExtendingIsGrowing | Linux高性能服务器编程/codes示例/11/11-3nonactive_conn.cpp:208-214 | extending one deadline of an ascending list meets that condition |
| SortedTimerList.SortTimerList.DelTimer | Linux高性能服务器编程/codes示例/11/11-2lst_timer.h:88-118 | removes exactly that node, as only node, head, tail or inner node |
| SortedTimerList.SortTimerList.UnlinkFirst | Linux高性能服务器编程/codes示例/11/11-2lst_timer.h:101-104 | the head |
| SortedTimerList.SortTimerList.UnlinkLast | Linux高性能服务器编程/codes示例/11/11-2lst_timer.h:108-111 | the tail |
| SortedTimerList.SortTimerList.UnlinkInner | Linux高性能服务器编程/codes示例/11/11-2lst_timer.h:115-116 | a node between two others |
| SortedTimerList.SortTimerList.Tick | Linux高性能服务器编程/codes示例/11/11-2lst_timer.h:119-143 | calls back exactly the timers due, in list order, and keeps exactly the others, in order |
| SortedTimerList.SortTimerList.PopFront | Linux高性能服务器编程/codes示例/11/11-2lst_timer.h:135-141 | the first node goes, perhaps the only one; tail is then stale |
| SortedTimerList.SortTimerList.constructor | Linux高性能服务器编程/codes示例/11/11-2lst_timer.h:32 | an empty list |
| SortedTimerList.InsertKeepsAscending | Linux高性能服务器编程/codes示例/11/11-2lst_timer.h:146-171 | stable insertion keeps an ascending sequence ascending |
| SortedTimerList.SlotIsUnique | Linux高性能服务器编程/codes示例/11/11-2lst_timer.h:146-171 | there is only one place between the deadlines that are not later and the later ones |
| SortedTimerList.InsertedInOrder | Linux高性能服务器编程/codes示例/11/11-2lst_timer.h:146-171 | inserting there keeps the list ascending, and there is nowhere else |
| SortedTimerList.LinkedIn | Linux高性能服务器编程/codes示例/11/11-2lst_timer.h:154-168 | the links after insertion: distinct nodes, next and prev inverse |
| SortedTimerList.LinkedOut | Linux高性能服务器编程/codes示例/11/11-2lst_timer.h:101-116 | the links after removal |
| TimeHeap.TimeHeap.Tick | Linux高性能服务器编程/codes示例/11/11-6time_heap.h:141-162 | pops in order of expiry exactly the timers with expire <= cur, keeps exactly the later ones in a heap, and calls back the live ones popped |
| TimeHeap.FiresExactlyTheDue | Linux高性能服务器编程/codes示例/11/11-6time_heap.h:141-162 | so each timer is called back as often as it was added if it is live and due and never otherwise, in non-decreasing order, and stays exactly if it is later |
| TimeHeap.CallbacksCount | Linux高性能服务器编程/codes示例/11/11-6time_heap.h:155-158 | the callbacks are those of the live timers popped, with multiplicity |
| TimeHeap.CallbacksAscend | Linux高性能服务器编程/codes示例/11/11-6time_heap.h:155-158 | in order of expiry |
| TimeHeap.RootIsMinimum | Linux高性能服务器编程/codes示例/11/11-6time_heap.h:120-127 | the first entry of a heap is a minimum |
| TimeHeap.TimeHeap.Top | Linux高性能服务器编程/codes示例/11/11-6time_heap.h:120-127 | null exactly for the empty heap, otherwise a minimum of everything held |
| TimeHeap.TimeHeap.FromArray | Linux高性能服务器编程/codes示例/11/11-6time_heap.h:50-77 | fails exactly when the capacity is too small; otherwise a heap that is a permutation of the array |
| TimeHeap.TimeHeap.Heapify | Linux高性能服务器编程/codes示例/11/11-6time_heap.h:72-75 | the bottom-up loop turns any array into a heap with the same entries |
| TimeHeap.TimeHeap.PercolateDown | Linux高性能服务器编程/codes示例/11/11-6time_heap.h:166-187 | a subtree that is a heap below its root becomes a heap, with the same entries |
| TimeHeap.TimeHeap.PickChild | Linux高性能服务器编程/codes示例/11/11-6time_heap.h:172-176 | the child that expires first |
| TimeHeap.SinkStep | Linux高性能服务器编程/codes示例/11/11-6time_heap.h:177-180 | moving the smaller child up keeps everything ordered except below the open place |
| TimeHeap.TimeHeap.AddTimer | Linux高性能服务器编程/codes示例/11/11-6time_heap.h:88-110 | adds exactly one entry, growing when full, and keeps the heap; null adds nothing |
| TimeHeap.TimeHeap.Rise | Linux高性能服务器编程/codes示例/11/11-6time_heap.h:98-109 | the new timer rises to its place |
| TimeHeap.RiseStep | Linux高性能服务器编程/codes示例/11/11-6time_heap.h:101-108 | moving a later parent down keeps everything ordered except above the open place |
| TimeHeap.TimeHeap.Resize | Linux高性能服务器编程/codes示例/11/11-6time_heap.h:188-206 | doubles the capacity and keeps the entries |
| TimeHeap.TimeHeap.DelTimer | Linux高性能服务器编程/codes示例/11/11-6time_heap.h:111-119 | only clears the callback |
| TimeHeap.TimeHeap.PopTimer | Linux高性能服务器编程/codes示例/11/11-6time_heap.h:128-140 | removes exactly the first entry and keeps the heap |
| TimeHeap.MoveLastToFront | Linux高性能服务器编程/codes示例/11/11-6time_heap.h:137 | the last entry in place of the first loses exactly the first |
| TimeHeap.TimeHeap.constructor | Linux高性能服务器编程/codes示例/11/11-6time_heap.h:37-49 | an empty heap |
| TimerAgreement.Twins.Play | Linux高性能服务器编程/codes示例/11/11-6time_heap.h:88-162 | for every script of adds, cancellations of live timers and ticks, heap and list both fire at each tick exactly the timers, once each, that a plain bag of deadlines fires |
| TimerAgreement.FiresAtDeadline | Linux高性能服务器编程/codes示例/11/11-6time_heap.h:141-162 | in any script, a pending timer that is not cancelled fires at the first tick that reaches its deadline and at no other |
| TimerAgreement.NeverAgain | Linux高性能服务器编程/codes示例/11/11-6time_heap.h:141-162 | a timer that is not pending fires at no tick |
| TimerAgreement.CallsExactly | Linux高性能服务器编程/codes示例/11/11-6time_heap.h:141-162 | the callbacks of a tick are those of the named timers, one for each, and no others |
| TimerAgreement.LegalScripts | Linux高性能服务器编程/codes示例/11/11-6time_heap.h:88-119 | adds and ticks may come in any order, and so may the cancellation of a pending timer |
| TimerAgreement.Twins.Tick | Linux高性能服务器编程/codes示例/11/11-6time_heap.h:141-162 | one tick on both |
| TimerAgreement.Twins.Add | Linux高性能服务器编程/codes示例/11/11-2lst_timer.h:43-62 | one add on both |
| TimerAgreement.Twins.Cancel | Linux高性能服务器编程/codes示例/11/11-6time_heap.h:111-119 | lazy cancellation in the heap and removal from the list leave the same pending deadlines |
| TimerAgreement.HeapTicks | Linux高性能服务器编程/codes示例/11/11-6time_heap.h:141-162 | with cancelled entries still inside, the heap fires exactly the pending timers due |
| TimerAgreement.ListTicks | Linux高性能服务器编程/codes示例/11/11-2lst_timer.h:119-143 | so does the list |
| ThreadPool.TokenAccounting | Linux高性能服务器编程/codes示例/15/15-3threadpool.h:71-114 | in every reachable state the queue length is the semaphore value plus the appenders that pushed but have not posted plus the workers that were woken but have not popped, corrected by failed waits and the retries they caused |
| ThreadPool.NeverEmptyHanded | Linux高性能服务器编程/codes示例/15/15-3threadpool.h:98-104 | unless a wait failed, a worker that looks at the queue finds a request |
| ThreadPool.NoLostWakeup | Linux高性能服务器编程/codes示例/15/15-3threadpool.h:71-114 | a state in which no thread can finish a step has an empty queue, a semaphore at 0, all appenders idle, all workers waiting, and every accepted request processed |
| ThreadPool.FifoAndBounded | Linux高性能服务器编程/codes示例/15/15-3threadpool.h:73-82 | requests are taken in the order they were accepted, each at most once; at most m_max_requests + 1 wait |
| ThreadPool.BoundIsReached | Linux高性能服务器编程/codes示例/15/15-3threadpool.h:73-82 | that bound is met: any number of requests up to it can be made to wait |
| ThreadPool.OneCall | Linux高性能服务器编程/codes示例/15/15-3threadpool.h:71-83 | an undisturbed append to a queue that is not over the limit adds its request and leaves the lock free |
| ThreadPool.MutualExclusion | Linux高性能服务器编程/codes示例/15/15-3threadpool.h:73-107 | at most one thread is inside a critical section |
| ThreadPool.StepKeepsInv | Linux高性能服务器编程/codes示例/15/15-3threadpool.h:71-114 | every atomic step of every thread keeps the invariant |
| ThreadPool.StepKeepsTokens | Linux高性能服务器编程/codes示例/15/15-3threadpool.h:71-114 | token balance |
| ThreadPool.StepKeepsLock | Linux高性能服务器编程/codes示例/15/15-3threadpool.h:73-107 | the lock has exactly the holder whose program counter says so |
| ThreadPool.StepKeepsFifo | Linux高性能服务器编程/codes示例/15/15-3threadpool.h:73-107 | order and bound |
| ThreadPool.StepConserves | Linux高性能服务器编程/codes示例/15/15-3threadpool.h:98-112 | a request taken is in the hands of one worker until it is processed once |
| ThreadPool.ReachableInv | Linux高性能服务器编程/codes示例/15/15-3threadpool.h:71-114 | the invariant holds in every reachable state |
| ThreadPool.WorkDecreases | Linux高性能服务器编程/codes示例/15/15-3threadpool.h:71-114 | every step of a call already made reduces a bounded amount of work |
| ThreadPool.ComesToRest | Linux高性能服务器编程/codes示例/15/15-3threadpool.h:71-114 | whatever the scheduler does, a pool that gets no new calls comes to rest within that many steps |
| ThreadPool.EveryRunFinishes | Linux高性能服务器编程/codes示例/15/15-3threadpool.h:71-114 | from every reachable running state, any run without new calls is bounded in length, and when it can go no further every request accepted before or on the way has been processed exactly once |
| ThreadPool.RunsToRest | Linux高性能服务器编程/codes示例/15/15-3threadpool.h:71-114 | and every state has such a run that comes to rest |
| ThreadPool.StoppedAtRest | Linux高性能服务器编程/codes示例/15/15-3threadpool.h:63-114 | a stopped pool at rest: every worker has left or waits for good at a semaphore of 0; as many requests stay in the queue as the semaphore still counts, less failed waits that took nothing, and only when all workers have left |
| ThreadPool.RequestLeftBehind | Linux高性能服务器编程/codes示例/15/15-3threadpool.h:63-83 | that happens: a request appended after the workers have left is accepted and never processed |
| ThreadPool.TakenAfterStop | Linux高性能服务器编程/codes示例/15/15-3threadpool.h:96-112 | over any run from a stopped state, at most as many requests are taken as there were workers waiting, woken or looking |
| ThreadPool.JobsMeans | Linux高性能服务器编程/codes示例/15/15-3threadpool.h:105-112 | a job is counted as often as its pointer occurs, and null pointers are no jobs |
| ThreadPool.StartState | Linux高性能服务器编程/codes示例/15/15-3threadpool.h:32-61 | a pool of any size starts in an initial state |
| ThreadPool.FailedWaitRetries | Linux高性能服务器编程/codes示例/15/15-3threadpool.h:98-104 | a failing wait lets a worker look at an empty queue and try again |
| ThreadPool.OwnerCanMove | Linux高性能服务器编程/codes示例/15/15-3threadpool.h:73-107 | the holder of the lock can always go on |
| RoundRobin.NextChildIsFirstLive | Linux高性能服务器编程/codes示例/15/15-1processpool.h:307-322 | the scan picks the first live child in cyclic order, and nobody exactly when all are dead |
| RoundRobin.ScanPassesDead | Linux高性能服务器编程/codes示例/15/15-1processpool.h:307-316 | from any point of the scan |
| RoundRobin.ProcessPool.Dispatch | Linux高性能服务器编程/codes示例/15/15-1processpool.h:305-328 | the scan, the new counter, and m_stop exactly when no child is live |
| RoundRobin.ProcessPool.Reap | Linux高性能服务器编程/codes示例/15/15-1processpool.h:344-369 | exactly the exited children leave the rotation, as in a run of one exit for each; m_stop exactly when none is left |
| RoundRobin.ProcessPool.MarkDead | Linux高性能服务器编程/codes示例/15/15-1processpool.h:348-359 | exactly the slots of the exited children are marked |
| RoundRobin.ProcessPool.constructor | Linux高性能服务器编程/codes示例/15/15-1processpool.h:280-291 | all children live, the counter at 0 |
| RoundRobin.OneTurnEach | Linux高性能服务器编程/codes示例/15/15-1processpool.h:305-328 | between two consecutive dispatches to one child every child alive throughout gets exactly one, whoever dies in between |
| RoundRobin.Balanced | Linux高性能服务器编程/codes示例/15/15-1processpool.h:305-328 | children that stay alive are served equally often, give or take one, over any run |
| RoundRobin.ServedDifference | Linux高性能服务器编程/codes示例/15/15-1processpool.h:305-328 | who was served more is settled by whose turn came first before and after |
| RoundRobin.ServedOnce | Linux高性能服务器编程/codes示例/15/15-1processpool.h:305-328 | a connection counts for the first live child from the counter on, and for no other |
| RoundRobin.ServingMovesToEnd | Linux高性能服务器编程/codes示例/15/15-1processpool.h:323 | a dispatch moves its child to the end of the order and nobody else past anybody |
| RoundRobin.ServingIsJustServed | Linux高性能服务器编程/codes示例/15/15-1processpool.h:323 | the child dispatched to has the last turn |
| RoundRobin.ExitsRun | Linux高性能服务器编程/codes示例/15/15-1processpool.h:350-358 | such a run marks exactly the exited children dead and leaves the counter alone |
| RoundRobin.StaysDead | Linux高性能服务器编程/codes示例/15/15-1processpool.h:350-358 | a dead child stays dead |
| UserTable.Tables.Accept | Linux高性能服务器编程/codes示例/13/13-4shm_talk_server.cpp:250-293 | the four outcomes and, for each, the whole new table and index |
| UserTable.Tables.Reap | Linux高性能服务器编程/codes示例/13/13-4shm_talk_server.cpp:318-332 | for every child not waited for before: its own record is found, so the test for an unknown process is dead; the table loses exactly that record, and the index follows |
| UserTable.Tables.constructor | Linux高性能服务器编程/codes示例/13/13-4shm_talk_server.cpp:234-247 | no users, no process assigned |
| UserTable.PidsAfterRemove | Linux高性能服务器编程/codes示例/13/13-4shm_talk_server.cpp:320-331 | the process ids of the table lose exactly that of the removed record |
| UserTable.SwapRemoveIsRemoval | Linux高性能服务器编程/codes示例/13/13-4shm_talk_server.cpp:329 | swap with last removes exactly the record at that place and keeps every other |
| UserTable.SwapRemoveKeepsIndexed | Linux高性能服务器编程/codes示例/13/13-4shm_talk_server.cpp:320-330 | the order of the three writes keeps the reverse index right, also when the last record goes |
| UserTable.IndexedMeansDistinct | Linux高性能服务器编程/codes示例/13/13-4shm_talk_server.cpp:290-291 | a right reverse index keeps live process ids apart |
| UserTable.DeadSlotCleared | Linux高性能服务器编程/codes示例/13/13-4shm_talk_server.cpp:321-330 | the dead process id is unassigned afterwards exactly when another record was moved; removing the last record writes its slot again |
| UserTable.ReindexElsewhere | Linux高性能服务器编程/codes示例/13/13-4shm_talk_server.cpp:320-330 | no other process id is touched |
| Relay.SentIsPrefix | Linux高性能服务器编程/codes示例/springsnail/conn.cpp:54-175 | in both directions what was sent is a prefix of what was received in this session, and the missing suffix is exactly the buffer between the two indices |
| Relay.Conn.ReadClt | Linux高性能服务器编程/codes示例/springsnail/conn.cpp:54-82 | for every environment: terminates, receives exactly what recv delivers into the room there is, and fails, closes or is content exactly as the recv call that ends it says; full only with something to forward |
| Relay.Conn.WriteSrv | Linux高性能服务器编程/codes示例/springsnail/conn.cpp:115-144 | for every environment: terminates, sends exactly the bytes send takes, in order, says empty exactly when all are gone, and otherwise what the send call that ends it says |
| Relay.Conn.ReadSrv | Linux高性能服务器编程/codes示例/springsnail/conn.cpp:84-113 | the same in the other direction |
| Relay.Conn.WriteClt | Linux高性能服务器编程/codes示例/springsnail/conn.cpp:146-175 | the same in the other direction |
| Relay.Conn.FillClt | Linux高性能服务器编程/codes示例/springsnail/conn.cpp:54-82 | the loop of the read |
| Relay.Conn.FillSrv | Linux高性能服务器编程/codes示例/springsnail/conn.cpp:84-113 | the loop of the read |
| Relay.Conn.DrainSrv | Linux高性能服务器编程/codes示例/springsnail/conn.cpp:115-144 | the loop of the write |
| Relay.Conn.DrainClt | Linux高性能服务器编程/codes示例/springsnail/conn.cpp:146-175 | the loop of the write |
| Relay.ReadRuns | Linux高性能服务器编程/codes示例/springsnail/conn.cpp:57-81 | there is a run of recv calls, each asked for the room left, whose pieces are what arrives and whose last call the code tells |
| Relay.WriteRuns | Linux高性能服务器编程/codes示例/springsnail/conn.cpp:118-143 | there is a run of send calls, each asked for all that is left, and the code tells the last one |
| Relay.OneReading | Linux高性能服务器编程/codes示例/springsnail/conn.cpp:57-81 | every such run has the same code |
| Relay.OneWriting | Linux高性能服务器编程/codes示例/springsnail/conn.cpp:118-143 | every such run has the same code |
| Relay.ReadStep | Linux高性能服务器编程/codes示例/springsnail/conn.cpp:65-79 | the first recv call settles the rest: no data yet, failure and close each end the reading in their own way |
| Relay.WriteStep | Linux高性能服务器编程/codes示例/springsnail/conn.cpp:127-142 | the first send call settles the rest |
| Relay.ReadBreaks | Linux高性能服务器编程/codes示例/springsnail/conn.cpp:66-77 | a read fails or closes exactly when some run of recv calls ends so |
| Relay.WriteBreaks | Linux高性能服务器编程/codes示例/springsnail/conn.cpp:128-140 | a write fails or closes exactly when some run of send calls ends so |
| Relay.Conn.Reset | Linux高性能服务器编程/codes示例/springsnail/conn.cpp:42-52 | a new session starts with empty buffers, so no earlier byte can be sent in it |
| Relay.Conn.constructor | Linux高性能服务器编程/codes示例/springsnail/conn.cpp:8-22 | a reset connection without a server |
| Relay.Conn.StoreClt | Linux高性能服务器编程/codes示例/springsnail/conn.cpp:65-79 | received bytes go behind the ones waiting |
| Relay.Conn.PassSrv | Linux高性能服务器编程/codes示例/springsnail/conn.cpp:127-142 | sent bytes are the first ones waiting |
| Relay.Conn.InitClt | Linux高性能服务器编程/codes示例/springsnail/conn.cpp:30-34 | sets the client descriptor |
| Relay.Conn.InitSrv | Linux高性能服务器编程/codes示例/springsnail/conn.cpp:36-40 | sets the server descriptor |
| Relay.EmptyOnlyWhenAllLeft | Linux高性能服务器编程/codes示例/springsnail/conn.cpp:120-125 | the code for an empty buffer means all bytes were taken, and the other way round |
| Relay.FullOnlyWhenNoRoom | Linux高性能服务器编程/codes示例/springsnail/conn.cpp:59-63 | the code for a full buffer means all room was used, and the other way round |
| Relay.FillConserves | Linux高性能服务器编程/codes示例/springsnail/conn.cpp:65-79 | received = sent followed by waiting, after a recv |
| Relay.DrainConserves | Linux高性能服务器编程/codes示例/springsnail/conn.cpp:127-142 | and after a send |
| ConnPool.Manager.Accept | Linux高性能服务器编程/codes示例/springsnail/processpool.h:236-243 | pick and init_clt: null exactly when no connection is idle; otherwise the idle one with the smallest descriptor is filed under both; the total stays |
| ConnPool.Manager.PickConn | Linux高性能服务器编程/codes示例/springsnail/mgr.cpp:87-110 | the two map updates, with no insert colliding |
| ConnPool.Manager.FreeConn | Linux高性能服务器编程/codes示例/springsnail/mgr.cpp:112-122 | both entries go, the connection is reset and filed as freed; the total stays |
| ConnPool.Manager.RecycleConns | Linux高性能服务器编程/codes示例/springsnail/mgr.cpp:124-148 | the whole new ledger: the freed connections, in the order of their old descriptors, get the descriptors that connect returns or are given up; nothing is freed afterwards, and the total falls by exactly the number of failures |
| ConnPool.RecycledTotal | Linux高性能服务器编程/codes示例/springsnail/mgr.cpp:130-147 | reconnecting makes exactly the new descriptors idle besides the old ones, and loses exactly the failures |
| ConnPool.RecycledInOrder | Linux高性能服务器编程/codes示例/springsnail/mgr.cpp:130-146 | the descriptors go to the freed connections in the order of their old ones; idle and bound connections stay |
| ConnPool.Manager.Retry | Linux高性能服务器编程/codes示例/springsnail/mgr.cpp:130-146 | one turn of that loop keeps the partition and costs at most one connection |
| ConnPool.Manager.RetryAll | Linux高性能服务器编程/codes示例/springsnail/mgr.cpp:130-146 | the loop over the entries in key order |
| ConnPool.Manager.Process | Linux高性能服务器编程/codes示例/springsnail/mgr.cpp:150-312 | the pair is given up exactly when its client side fails or closes or is served after the server side did; otherwise its session grows by exactly what the event relays; partition, keys and total are kept |
| ConnPool.Manager.Transfer | Linux高性能服务器编程/codes示例/springsnail/mgr.cpp:157-264 | for a connection of the pool: the session after the event is exactly what the side and the kind of event ask of recv or send, and the code reports the end of a peer |
| ConnPool.Manager.Forward | Linux高性能服务器编程/codes示例/springsnail/mgr.cpp:157-264 | the relay call an event makes: what recv delivers is received, or what send takes is sent, in that direction and no other |
| ConnPool.Manager.RelayedMeans | Linux高性能服务器编程/codes示例/springsnail/mgr.cpp:157-264 | side by side, which bytes an event adds to which flow |
| ConnPool.Manager.EndsMeans | Linux高性能服务器编程/codes示例/springsnail/mgr.cpp:157-295 | a peer is given up on exactly when some run of its socket calls fails or closes |
| ConnPool.Manager.RelaysFaithfully | Linux高性能服务器编程/codes示例/springsnail/mgr.cpp:150-312 | every connection of the pool relays faithfully: sent is a prefix of received, and the missing bytes are in its buffer |
| NullEntries.Used.Counts | Linux高性能服务器编程/codes示例/springsnail/mgr.cpp:82-85 | when process is also called for descriptors the map does not hold: the count is twice the bound pairs plus the stale keys |
| NullEntries.Used.PickFiles | Linux高性能服务器编程/codes示例/springsnail/mgr.cpp:103-105 | a new pair is found under both its descriptors if and only if neither is a stale key, since insert leaves a null alone |
| NullEntries.Used.FiledForLife | Linux高性能服务器编程/codes示例/springsnail/mgr.cpp:103-152 | and that is settled for as long as the pair is bound, whatever else happens |
| NullEntries.Used.NeverStale | Linux高性能服务器编程/codes示例/springsnail/mgr.cpp:103-152 | as long as process is only called for keys of the map, no key is stale and every pair is found under both descriptors |
| NullEntries.Used.StaleStep | Linux高性能服务器编程/codes示例/springsnail/mgr.cpp:103-152 | what one call does to the stale keys |
| NullEntries.Used.StaleExactly | Linux高性能服务器编程/codes示例/springsnail/mgr.cpp:103-152 | the stale keys after any run: those touched while they belonged to no pair, and those stale before, that no new pair has taken over since |
| NullEntries.LedgerIsFiled | Linux高性能服务器编程/codes示例/springsnail/mgr.cpp:103-121 | the manager’s ledger, seen as such a map, has no stale key and every pair filed |
| NullEntries.BindIsPick | Linux高性能服务器编程/codes示例/springsnail/mgr.cpp:103-105 | binding in the ledger is picking in the map |
| NullEntries.FreeIsFree | Linux高性能服务器编程/codes示例/springsnail/mgr.cpp:118-121 | freeing in the ledger is freeing in the map |
| NullEntries.Used.StepKeepsOk | Linux高性能服务器编程/codes示例/springsnail/mgr.cpp:103-152 | a pair is only ever filed under its own descriptors, and both are keys |
| NullEntries.LostPair | Linux高性能服务器编程/codes示例/springsnail/mgr.cpp:103-152 | an input: both events of one pair in a batch, then its descriptor number used again |
| ConnPool.Manager.MarkClosed | Linux高性能服务器编程/codes示例/springsnail/mgr.cpp:250-256 | a closed server is only remembered |
| ConnPool.Manager.GetUsedConnCnt | Linux高性能服务器编程/codes示例/springsnail/mgr.cpp:82-85 | always twice the number of bound pairs |
| ConnPool.Manager.constructor | Linux高性能服务器编程/codes示例/springsnail/mgr.cpp:51-75 | exactly the descriptors connected to are idle, nothing else is filed |
| ConnPool.Manager.AddConn | Linux高性能服务器编程/codes示例/springsnail/mgr.cpp:62-73 | one more idle connection |
| PoolBooks.Books.CountsPool | Linux高性能服务器编程/codes示例/springsnail/mgr.cpp:82-85 | idle, half of used and freed add up to the number of surviving connections |
| PoolBooks.Books.ServersDistinct | Linux高性能服务器编程/codes示例/springsnail/mgr.cpp:104-121 | all surviving connections have different server descriptors |
| PoolBooks.Books.Located | Linux高性能服务器编程/codes示例/springsnail/mgr.cpp:103-121 | each is filed under its own server descriptor in one of the maps |
| PoolBooks.Books.UsedKey | Linux高性能服务器编程/codes示例/springsnail/mgr.cpp:152-231 | a key of the used map is one of the two descriptors of its connection, so the last branch of process is dead |
| PoolBooks.Books.BindKeepsOk | Linux高性能服务器编程/codes示例/springsnail/mgr.cpp:103-105 | binding keeps partition, keys and total |
| PoolBooks.Books.FreeKeepsOk | Linux高性能服务器编程/codes示例/springsnail/mgr.cpp:118-121 | freeing keeps them |
| PoolBooks.Books.ReconnectKeeps | Linux高性能服务器编程/codes示例/springsnail/mgr.cpp:133-145 | a reconnect keeps partition and keys; a failure costs exactly one |
| PoolBooks.Books.AddIdleKeepsOk | Linux高性能服务器编程/codes示例/springsnail/mgr.cpp:72-73 | so does a new idle connection |
| PoolBooks.TwoKeysEach | Linux高性能服务器编程/codes示例/springsnail/mgr.cpp:104-105 | the used map has exactly two entries for each bound connection |
| PoolBooks.RemovePair | Linux高性能服务器编程/codes示例/springsnail/mgr.cpp:118-119 | erasing both keys removes exactly one connection from the used map |

## Left out

- Sockets, epoll, signals, fork, mmap, `stat`, logging and printing, and all other demo programs.
- Memory release, destructors and dangling pointers: removal from the structure is modelled, `delete` is not.
- Callbacks that call the container again.
- `do_request` of 15-5 (the file system), and `write`, whose accounting never advances the pieces it sends.
- HttpConn.Conn.ProcessRead: returns at the blank line; the body state is HttpConn.Conn.ProcessBody.
- HttpConn.Conn.ProcessBody: is called only where the NUL it may write is inside the buffer, which HttpConn.Conn.NulFitsExactly characterises; what the write does otherwise, and `do_request`, are not part of this model.
- HttpConn.Conn.ServeBody: is stated for a positive length and a buffer with a byte to spare.
- HttpConn.Conn.Vsnprintf: the text is passed in already formatted.
- HttpConn.Conn.ProcessWrite: `off_t` is 64 bits wide and never negative, and only the lengths of the pieces for `writev` are modelled, not their addresses.
- TimeHeap.TimeHeap.AddTimer: needs a capacity above 0, because doubling 0 gains nothing and the write is then outside the array.
- TimeHeap.TimeHeap.Tick: needs a capacity above 0, because it reads the first slot before it asks whether the heap is empty.
- TimeHeap.TimeHeap.Resize: a failing allocation and the overflow of `2*capacity` are not modelled.
- TimeHeap.TimeHeap.FromArray: an array that holds null pointers is excluded, since `percolate_down` dereferences the entries it compares.
- TimeWheel.Wheel.DelTimer: a timer that is not on the wheel is excluded; the pointers it would follow are not its own.
- SortedTimerList.SortTimerList.DelTimer: a timer that is not in the list is excluded; the ghost index says where it stands.
- ThreadPool.NoLostWakeup: is about a running pool; ThreadPool.StoppedAtRest says what becomes of a stopped one.
- ThreadPool.TokenAccounting: failing lock, unlock and post calls are not modelled; a failing wait is.
- RoundRobin.ProcessPool.Reap: the pipe of the dead child is not modelled; exited process ids are positive, as `waitpid` returns them.
- UserTable.Tables.Accept: `fork` does not return the id of a child that is still to be reaped, and ids are below the process limit; the shared-memory slots of the children are not modelled.
- ConnPool.Manager.Accept: the descriptor of a new client is not open in the pool already.
- ConnPool.Manager.PickConn: a null entry in the idle map cannot arise and is not modelled.
- ConnPool.Manager.Process: assumes that it is called for keys of the used map only, which a batch of events that holds both descriptors of a pair breaks; NullEntries, whose map the ledger is an image of, drops the assumption. The interest masks are left out, since one direction overwrites the other.
- ConnPool.Manager.RecycleConns: the descriptors `connect` returns are not open in the pool already and differ from each other.
- Relay.Conn.ReadClt: after the server has closed, bytes still waiting may be dropped when the pair is given up, so complete delivery is not claimed.
- The busy-ratio messages, `get_most_free_srv` and the configuration parser of springsnail.
- Integer widths other than those of the Content-Length round trip: indices and times are unbounded.

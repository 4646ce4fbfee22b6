# A verified model of a small threaded HTTP file server

The server answers one request per connection. It responds to a `GET`
by serving a file, or an HTML listing for a directory, from a fixed root
directory. It answers `POST /ping` with a fixed JSON reply. Every other
request gets `501 Not Implemented`. A separate logger thread drains a
bounded in-memory queue of formatted log lines into a log file.

This project models the core of that server in Dafny, one module per C
file:

- `Logger` (`logger.dfy`) models `src/logger.c`.
  - The level threshold and the case-insensitive `LOG_LEVEL` setting.
  - The text of a log line: the coloured, padded level, the location, and the "add a newline if not present" rule.
  - The 1024-slot circular queue, as a class `LoggerState`. It holds the entry array, `head`, `tail`, `count`, `running`, the level and the log file's contents. A ghost sequence holds the queued messages. `Valid()` ties those messages to the ring slots and keeps `0 <= count <= 1024`.
  - `enqueue_log`, the writer thread's dequeue-and-write step, its loop, and `logger_cleanup`'s drain.
- `RequestHandler` (`request_handler.dfy`) models `src/request_handler.c`.
  - `serve_static_file` runs over an abstract filesystem (a map from paths to directories and files). Its decision tree is a pure function, `Decide`. The method `ServeStaticFile` performs the sends on a socket object and is proved to send exactly `StaticSends`.
  - `generate_directory_listing` writes into a `char` array and is proved to leave the listing document (`ListingText`) in it, cut to the buffer and NUL-terminated.
  - The read/send loop, and `handle_post_ping`.
- `HttpServer` (`http_server.dfy`) models `handle_client` in `src/http_server.c`, lines 25-61.
  - Filling the receive buffer and terminating it with NUL.
  - `sscanf("%s %s %s")` tokenising, as `Scan`.
  - The routing chain, as `Route`/`Dispatch`, and the final `close`.
- `MimeTypes` (`mime_types.dfy`) models `src/mime_types.c`: `get_mime_type` and its 17-entry table.
- `Utils` (`utils.dfy`) models `src/utils.c`: the header text of `send_response` and `send_simple_response`, and the socket (`Connection`). The socket records the bytes the peer received, and it lets a given number of send calls succeed before every later one fails.
- `Strings` (`strings.dfy`) holds the C library pieces the server relies on: `strcasecmp`, `strstr`, `strlen` of a buffer, `snprintf`'s truncation, and decimal printing.
- `ServerConfig` (`config.dfy`) holds `BUFFER_SIZE`, `SMALL_BUFFER` and `ROOT_DIR`. The header that defines them is not part of this model, so they are a `Config` parameter, with `Valid` stating what the fixed buffers need.

The system calls become inputs:

| system call | what replaces it |
|---|---|
| `recv` | a `Received` value |
| `stat`, `opendir`/`readdir`, `open` | the filesystem map |
| each `read` | an entry of a `ReadResult` list |
| `malloc` | a flag saying whether the allocation succeeds |
| the timestamp | a string |
| how many sends the peer accepts | the socket's `sendsLeft` |

The five defects under "## Findings" are each modelled twice: once as
written, with a lemma that exhibits the defect, and once corrected. The
rest of the model uses the corrected form.

## Model

| member | source | states |
|---|---|---|
| `Strings.EqualsIgnoreCase` | src/mime_types.c:34 | strcasecmp(a, b) == 0: the texts agree after ASCII lower-casing (a definition; its use is stated by `MimeTypes.CaseInsensitive` and `HttpServer.MethodIgnoresCase`) |
| `Strings.Find` | src/http_server.c:46 | strstr: the first index where the pattern occurs, None exactly when it occurs nowhere |
| `Strings.CStringOf` | src/request_handler.c:101 | strlen: the text before the first NUL, or all of it when there is none |
| `Strings.SnprintfStored` | src/request_handler.c:29-40 | snprintf into size bytes stores the first min(length, size - 1) characters of its text |
| `Strings.Emit` | src/request_handler.c:57-66 | one snprintf into the buffer at pos, with pos advanced by what it stored: what precedes pos is kept, the text is written cut to the buffer's last byte, and a NUL follows it |
| `Strings.EmitAfter` | src/logger.c:187-201 | the same, following earlier writes: the buffer holds the concatenated texts cut to its last byte, NUL-terminated |
| `Strings.NatToString` | src/utils.c:13 | %zu / %ld of a non-negative value: at least one digit, all digits, a leading 0 only for 0; read back by `Strings.DecimalRoundTrip` |
| `Strings.DecimalRoundTrip` | src/utils.c:13 | the decimal text of n reads back as n |
| `MimeTypes.LastDot` | src/mime_types.c:28 | strrchr: the index of a dot with no dot after it, or None exactly when the path has no dot |
| `MimeTypes.FirstMatch` | src/mime_types.c:33-37 | the first table index from i whose extension equals ext ignoring case, or None when no later entry matches |
| `MimeTypes.TypeOfExtension` | src/mime_types.c:33-39 | the default type exactly when no table extension matches ignoring case; otherwise the type of the first matching entry |
| `MimeTypes.GetMimeType` | src/mime_types.c:27-40 | the result is the default type or a type from the table |
| `MimeTypes.NoDotIsDefault` | src/mime_types.c:28-31 | a path without a dot gets application/octet-stream |
| `MimeTypes.ExtensionIsLastDotSuffix` | src/mime_types.c:28-35 | the extension compared is the suffix from the last dot |
| `MimeTypes.DotInDirectoryIsDefault` | src/mime_types.c:28-39 | a last dot followed by a '/' leaves a suffix no extension matches: the default type |
| `MimeTypes.CaseInsensitive` | src/mime_types.c:34 | paths equal up to letter case get the same type |
| `MimeTypes.TypeOfExtensionByLowerCase` | src/mime_types.c:33-37 | extensions equal up to letter case get the same type |
| `MimeTypes.UpperCaseHtmlIsHtml` | src/mime_types.c:7-35 | "/docs/Index.HTML" is text/html |
| `Utils.HeaderRoundTrip` | src/utils.c:10-15 | parsing the header send_response builds gives back its status, content type and Content-Length |
| `Utils.FullHeader` | src/utils.c:10-15 | send_response's header text (a definition; its properties are `Utils.HeaderRoundTrip`, `Utils.FullHeaderDeterminesLength` and `Utils.HeadersCloseAndEndWithBlankLine`) |
| `Utils.SimpleHeader` | src/utils.c:30-35 | send_simple_response's header text (a definition; stated by `Utils.SimpleHeaderIsEmptyBodyHeader`) |
| `Utils.ResponseSends` | src/utils.c:17-25 | send_response's two send calls, the header and then the body (a definition; `Utils.SendResponse` is proved to make them) |
| `Utils.SendFromHeaderBuffer` | src/utils.c:9-17 | as written: the characters the header array holds and the count send is asked for (a definition; stated by `Utils.HeaderOverRead`) |
| `Utils.FullHeaderDeterminesLength` | src/utils.c:10-15 | headers for different body lengths differ |
| `Utils.HeadersCloseAndEndWithBlankLine` | src/utils.c:10-35 | both header forms end with "Connection: close" and an empty line |
| `Utils.SimpleHeaderIsEmptyBodyHeader` | src/utils.c:28-35 | send_simple_response's header is send_response's header for an empty body |
| `Utils.HeaderOverRead` | src/utils.c:9-17 | as written, a header that fits is sent exactly, but some header is longer than SMALL_BUFFER, so send reads past the array |
| `Utils.ServerErrorOverRead` | src/utils.c:30-37 | as written, with a status and type a caller passes: the 500 reply's header is 102 characters, so with any SMALL_BUFFER of 102 or less what is sent is not the header, and send reads past the array exactly when SMALL_BUFFER is 101 or less |
| `Utils.Connection.Send` | src/utils.c:17-25 | a send delivers its bytes and returns their count while the peer accepts, and returns -1 otherwise |
| `Utils.Connection.Close` | src/http_server.c:59 | close counts one close and changes nothing else |
| `Utils.SendResponse` | src/utils.c:7-26 | the peer receives the header, then the body, as far as its sends succeed; the body is not sent when the header send fails |
| `Utils.SendSimpleResponse` | src/utils.c:28-40 | one send of the Content-Length: 0 header |
| `RequestHandler.HandlePostPing` | src/request_handler.c:14-20 | the body is ignored; the reply is 200 OK, application/json, with the pong body |
| `RequestHandler.PongFitsItsBuffer` | src/request_handler.c:16-19 | the pong is 23 bytes and snprintf stores all of it, so the length sent is the body's own |
| `RequestHandler.PongOverRead` | src/request_handler.c:16-19 | as written, with a SMALL_BUFFER of 23 or less snprintf stores less than the 23 bytes send_response sends, and send reads past the array exactly when SMALL_BUFFER is 22 or less |
| `RequestHandler.RowsAppend` | src/request_handler.c:47-68 | rows come in enumeration order: the rows of a + b are those of a, then those of b |
| `RequestHandler.RowOfOneEntry` | src/request_handler.c:48-67 | "." has no row, an entry stat fails on has no row, any other entry (".." included) has its row |
| `RequestHandler.RowsAreEntryRows` | src/request_handler.c:47-68 | the listing's rows are its entries' rows, concatenated |
| `RequestHandler.ListingHeader` | src/request_handler.c:29-40 | the listing's opening text for dir_path (a definition; used by `RequestHandler.ListingText`) |
| `RequestHandler.EntryRow` | src/request_handler.c:56-63 | the table row of a directory or a file (a definition; stated by `RequestHandler.ExampleRows`) |
| `RequestHandler.RowFor` | src/request_handler.c:48-67 | one readdir entry's contribution: nothing for "." or when stat fails on its path, otherwise its row (a definition; stated by `RequestHandler.RowOfOneEntry`) |
| `RequestHandler.Enumerate` | src/request_handler.c:45-47 | the names readdir yields for the directory, none when opendir fails (a definition; used by `RequestHandler.ListingRows`) |
| `RequestHandler.ListingRows` | src/request_handler.c:45-68 | the rows of all entries, in readdir order (a definition; stated by `RequestHandler.RowsAreEntryRows`) |
| `RequestHandler.ListingFooter` | src/request_handler.c:72-75 | the closing markup of the listing (a definition; used by `RequestHandler.ListingText`) |
| `RequestHandler.StatPath` | src/request_handler.c:50 | the path stat is given: dir_path, "/", the name, cut to SMALL_BUFFER - 1 characters (a definition; used by `RequestHandler.RowOfOneEntry`) |
| `RequestHandler.ListingText` | src/request_handler.c:29-75 | header, rows and footer before any cut (a definition; `RequestHandler.GenerateDirectoryListing` is proved to write it, cut to the buffer) |
| `RequestHandler.ListingBody` | src/request_handler.c:100-101 | strlen of the filled listing buffer (a definition; stated by `RequestHandler.ListingBodyIsBoundedPrefix`) |
| `RequestHandler.ListingExample` | src/request_handler.c:47-67 | a directory of ".", "..", "a.txt", "sub" lists "..", "a.txt" and "sub" in that order |
| `RequestHandler.ExampleRows` | src/request_handler.c:56-63 | a 100-byte file's row shows its size 100; a directory's row links to "name/" with size "-" |
| `RequestHandler.ListingBodyIsBoundedPrefix` | src/request_handler.c:94-101 | the listing body is shorter than BUFFER_SIZE * 4 and a prefix of the document; a document that fits, with no NUL in it, is sent whole |
| `RequestHandler.EmitEntry` | src/request_handler.c:48-67 | one readdir entry appends its row (or nothing) to what the buffer holds, cut to the buffer |
| `RequestHandler.WriteListing` | src/request_handler.c:29-75 | the buffer holds header, rows and footer, cut to its size and NUL-terminated |
| `RequestHandler.GenerateDirectoryListing` | src/request_handler.c:22-76 | the buffer holds the listing document, cut to its size and NUL-terminated |
| `RequestHandler.AsWrittenCalls` | src/request_handler.c:42-66 | as written: one (pointer, size) pair per snprintf |
| `RequestHandler.AsWrittenCallsClosedForm` | src/request_handler.c:42-66 | as written, call k writes at the full length so far, with the size reduced by it modulo 2^64 |
| `RequestHandler.AsWrittenListingOverruns` | src/request_handler.c:65-75 | as written, once the text before the footer exceeds the buffer, the footer's snprintf gets a pointer past the end and a non-zero size |
| `RequestHandler.RowCalls` | src/request_handler.c:47-67 | the texts the loop's row snprintf calls format, one per entry that gets a row, in directory order (a definition; stated by `RequestHandler.RowCallsFlatten`) |
| `RequestHandler.ListingCalls` | src/request_handler.c:29-75 | the listing's snprintf texts in call order: the header, the row calls, the footer (a definition; used by `RequestHandler.ListingOverruns`) |
| `RequestHandler.RowCallsFlatten` | src/request_handler.c:47-67 | the row snprintf calls of the loop format exactly the listing's rows |
| `RequestHandler.ListingOverruns` | src/request_handler.c:42-75 | as written, for the listing's own calls: a directory whose header and rows exceed BUFFER_SIZE * 4 bytes sends the footer's snprintf past the buffer's end with a non-zero size |
| `RequestHandler.Resolve` | src/request_handler.c:84-85 | the path served is ROOT_DIR followed by the request path |
| `RequestHandler.PathConcatOverflows` | src/request_handler.c:84-85 | as written, a request path without "..", short enough for the sscanf array, still makes strcat overflow file_path |
| `RequestHandler.ResolvedPathBytes` | src/request_handler.c:84-85 | as written: the bytes strcat needs in file_path, ROOT_DIR, the path and the NUL (a definition; stated by `RequestHandler.PathConcatOverflows`) |
| `RequestHandler.DotDotIsBadRequest` | src/request_handler.c:79-82 | a path containing ".." is answered 400 whatever the filesystem holds |
| `RequestHandler.DecisionStatuses` | src/request_handler.c:79-110 | each outcome (400, 404, 500, listing, file) happens exactly under its condition, for the resolved path and size |
| `RequestHandler.Decide` | src/request_handler.c:79-110 | the decision tree of serve_static_file (a definition; stated by `RequestHandler.DecisionStatuses` and `RequestHandler.DotDotIsBadRequest`) |
| `RequestHandler.ReadsOfDeliverData` | src/request_handler.c:128-132 | reading a file in BUFFER_SIZE chunks to end of file sends exactly its bytes |
| `RequestHandler.FileHeaderIsOkHeader` | src/request_handler.c:118-124 | serve_static_file's own header is send_response's 200 OK header |
| `RequestHandler.FileHeader` | src/request_handler.c:118-124 | serve_static_file's own header text (a definition; stated by `RequestHandler.FileHeaderIsOkHeader`) |
| `RequestHandler.ChunkSends` | src/request_handler.c:130-132 | the send calls of the read loop, up to the first read that returns 0 or fails (a definition; stated by `RequestHandler.ReadsOfDeliverData`) |
| `RequestHandler.StaticSends` | src/request_handler.c:78-135 | the send calls of each outcome (a definition; stated by `RequestHandler.FileIsServedWhole` and `RequestHandler.StaticAlwaysResponds`) |
| `RequestHandler.FileIsServedWhole` | src/request_handler.c:106-132 | an openable file is answered with a header giving its size, then all of its bytes |
| `RequestHandler.StaticAlwaysResponds` | src/request_handler.c:78-135 | every outcome sends at least a header |
| `RequestHandler.SendFileChunks` | src/request_handler.c:128-132 | the loop sends each chunk read, up to the first read that returns 0 or fails |
| `RequestHandler.ServeDirectory` | src/request_handler.c:93-103 | the listing generated into BUFFER_SIZE * 4 bytes is sent as text/html with its strlen as length |
| `RequestHandler.SendFileResponse` | src/request_handler.c:112-132 | the file header, then every chunk, each send's result ignored |
| `RequestHandler.ServeStaticFile` | src/request_handler.c:78-135 | the peer receives exactly the sends that Decide's outcome calls for |
| `HttpServer.Scan` | src/http_server.c:37 | at most n words |
| `HttpServer.ScanYieldsWords` | src/http_server.c:37 | every word %s reads is non-empty and has no white space |
| `HttpServer.IsSpace` | src/http_server.c:37 | isspace in the C locale, the characters %s stops at (a definition; used by `HttpServer.Scan`) |
| `HttpServer.SkipSpace` | src/http_server.c:37 | where a %s conversion starts: at or after i, within the text, and not on white space |
| `HttpServer.WordEnd` | src/http_server.c:37 | where a %s conversion stops: at or after i, within the text, and on white space unless at the end |
| `HttpServer.ScanSpaces` | src/http_server.c:37 | %s skips any run of leading white space |
| `HttpServer.ScanRequestLine` | src/http_server.c:37 | m, p and v with any white space before them, at least one white space character between them, and white space or nothing after them read as the words m, p, v |
| `HttpServer.ParseRequestLine` | src/http_server.c:34-37 | method, path and protocol are the words read in order; a missing word reads as "" |
| `HttpServer.StaleWordsDecide` | src/http_server.c:34-44 | as written, an empty request is served from whatever path the stack held, or refused, depending only on that |
| `HttpServer.ParseAsWritten` | src/http_server.c:34-37 | as written: a word sscanf does not reach keeps the array's old contents (a definition; stated by `HttpServer.StaleWordsDecide`) |
| `HttpServer.Route` | src/http_server.c:42-57 | every request line leads to a response |
| `HttpServer.Dispatch` | src/http_server.c:25-57 | recv failure drops the connection; otherwise the buffer's C string is parsed and routed (a definition; stated by `HttpServer.SilentOnlyOnFailedReceive`, `HttpServer.BytesAfterNulIgnored` and `HttpServer.GetServesPath`) |
| `HttpServer.ActionSends` | src/http_server.c:42-57 | the send calls of each branch (a definition; `HttpServer.HandleClient` is proved to make them) |
| `HttpServer.RouteBranches` | src/http_server.c:42-57 | GET (any case) is served for its path; POST (any case) to exactly /ping is ponged or, exactly when the request has no blank line, 400; everything else 501; each branch exactly when its condition holds |
| `HttpServer.PostIsNotGet` | src/http_server.c:42-45 | a method equal to POST ignoring case is not GET, so the POST test is reached |
| `HttpServer.PingBodyFollowsBlankLine` | src/http_server.c:45-50 | for POST in any case, the ping body is the text after the first "\r\n\r\n", whatever header lines come before it |
| `HttpServer.PingWithHeaderLine` | src/http_server.c:45-50 | "post /ping HTTP/1.1\r\nHost: x\r\n\r\n" followed by a body pongs with that body |
| `HttpServer.PingWithoutBlankLine` | src/http_server.c:45-53 | a POST (any case) to /ping without a blank line is 400 |
| `HttpServer.MethodIgnoresCase` | src/http_server.c:42-45 | "get" is served; the path "/PING" is not the ping |
| `HttpServer.GetServesPath` | src/http_server.c:32-44 | a GET request line is served for its path, and bytes after a NUL do not matter |
| `HttpServer.BytesAfterNulIgnored` | src/http_server.c:32-37 | only the buffer's text before the first NUL decides the action |
| `HttpServer.EmptyRequestNotImplemented` | src/http_server.c:37-56 | a request without words is 501 |
| `HttpServer.SilentOnlyOnFailedReceive` | src/http_server.c:25-57 | nothing is sent exactly when recv fails |
| `HttpServer.ReceiveRequest` | src/http_server.c:25-32 | the NUL-terminated receive buffer holds the C string of the bytes received |
| `HttpServer.HandleClient` | src/http_server.c:25-59 | the peer receives exactly the sends the dispatched action calls for, and the socket is closed once |
| `Logger.Rank` | include/logger.h:7-14 | levels are 0 to 5 |
| `Logger.Name` | src/logger.c:41-43 | the level's entry in level_strings (a definition; stated by `Logger.NamesDiffer` and `Logger.ParseLevelRoundTrip`) |
| `Logger.Colour` | src/logger.c:45-47 | the level's entry in level_colors, the escape codes of include/logger.h (a definition; used by `Logger.LevelTag`) |
| `Logger.ParseLevel` | src/logger.c:53-61 | without LOG_LEVEL the level is kept; a changed level is one whose name the value equals ignoring case |
| `Logger.NamesDiffer` | src/logger.c:41-43 | no two level names are equal ignoring case |
| `Logger.ParseLevelNames` | src/logger.c:54-61 | a value equal to a level's name ignoring case selects that level |
| `Logger.ParseLevelUnrecognised` | src/logger.c:54-61 | a value naming no level keeps the level |
| `Logger.ParseLevelRoundTrip` | src/logger.c:41-61 | each name, upper or lower case, reads back as its level |
| `Logger.ThresholdOrder` | src/logger.c:176 | a record is kept exactly when its level is not below the threshold; raising the threshold keeps fewer; FATAL is always kept |
| `Logger.Accepts` | src/logger.c:176 | a record passes the threshold when its level is not below it (a definition; stated by `Logger.ThresholdOrder`) |
| `Logger.PadRight` | src/logger.c:193-194 | %-5s: the text, then spaces up to the width |
| `Logger.LevelTag` | src/logger.c:193-194 | the colour, the level name padded to 5, the colour reset and a space (a definition; used by `Logger.LogText`) |
| `Logger.Location` | src/logger.c:197-198 | "(file:line) " (a definition; used by `Logger.LogText`) |
| `Logger.LogText` | src/logger.c:187-201 | timestamp, level tag, location and message, before any cut (a definition; `Logger.FormatLine` is proved to store its bounded line) |
| `Logger.EnsureNewline` | src/logger.c:204-207 | a non-empty line ends in exactly one added newline unless it already ends in one; otherwise unchanged |
| `Logger.EnsureNewlineIdempotent` | src/logger.c:204-207 | applying the newline rule twice is applying it once |
| `Logger.BoundedLine` | src/logger.c:187-207 | the line fits the buffer with its NUL; a non-empty line always ends in a newline and otherwise holds the start of the text; a text that fits gets exactly the newline rule |
| `Logger.FormatLine` | src/logger.c:178-207 | the stack buffer holds the bounded line of timestamp, level tag, location and message, NUL-terminated |
| `Logger.FormatPieces` | src/logger.c:187-207 | four snprintf calls with the offset kept in the buffer, then the newline rule |
| `Logger.AppendNewline` | src/logger.c:204-207 | a stored text that lacks a newline gets one after it when the buffer has room, or in place of its last character when it has not |
| `Logger.LogLineOverflow` | src/logger.c:187-209 | as written, offset is the whole text's length, so a 4096-character message puts it past the buffer; the bounded line always fits |
| `Logger.AsWrittenOffset` | src/logger.c:187-201 | as written: offset as the sum of the would-be lengths (a definition; stated by `Logger.LogLineOverflow`) |
| `Logger.HoldsPush` | src/logger.c:121-129 | storing at the tail slot queues the message after the others |
| `Logger.HoldsOverwriteFree` | src/logger.c:121-132 | writing the free tail slot leaves the queue as it was |
| `Logger.HoldsPop` | src/logger.c:152-157 | the head slot holds the oldest message; the rest follow from the next slot |
| `Logger.Holds` | src/logger.c:121-157 | the queued messages sit in the slots from head on, wrapping at 1024, each with its length (a definition; the invariant `Logger.HoldsPush`, `Logger.HoldsOverwriteFree` and `Logger.HoldsPop` maintain) |
| `Logger.LoggerState.Valid` | src/logger.c:109-157 | the queue invariant: 1024 slots, head and tail in range, tail = head + count mod 1024, and the queued messages held from head (a definition; kept by every method of the class) |
| `Logger.LoggerState.constructor` | src/logger.c:53-78 | level from LOG_LEVEL (default INFO), empty queue, running, file as it was |
| `Logger.LoggerState.SetLevel` | src/logger.c:105-107 | the threshold becomes the level given; the queue invariant is kept |
| `Logger.LoggerState.Enqueue` | src/logger.c:109-135 | stopped: dropped, nothing changes; allocation fails: null in the tail slot, queue unchanged; otherwise a copy at old tail, tail + 1 mod 1024, count + 1, message queued last |
| `Logger.LoggerState.Dequeue` | src/logger.c:152-157 | returns the oldest message with its length; head + 1 mod 1024, count - 1 |
| `Logger.LoggerState.WriterStep` | src/logger.c:140-170 | exits exactly when nothing is queued; otherwise appends the oldest message to the file |
| `Logger.LoggerState.RunWriter` | src/logger.c:137-173 | after shutdown the writer appends every queued message in order and leaves the queue empty |
| `Logger.LoggerState.Cleanup` | src/logger.c:90-103 | the file ends with everything queued, oldest first; the logger is stopped and empty |
| `Logger.LoggerState.Log` | src/logger.c:175-210 | a record below the threshold changes nothing and never waits, even on a full queue; any other queues its bounded line (when running and allocated) |
| `Logger.Replay` | src/logger.c:109-157 | first in, first out: any run of enqueues and dequeues that never waits, across any number of wrap-arounds of the 1024 slots, dequeues exactly the earliest messages enqueued, in order |
| `Logger.DiscardWhileFull` | src/logger.c:176 | a DEBUG record under INFO, on a running logger with a full queue, is dropped without waiting and leaves the queue and the file as they were |
| `Logger.QueueThenCleanup` | src/logger.c:90-170 | two queued messages end up in the file after its old contents, in order |
| `Logger.DefaultThreshold` | src/logger.c:175-209 | under the default INFO level a DEBUG record is dropped and a WARN record is queued |

## Left out

- Threads and synchronisation are left out: the mutexes, condition variables, `pthread_create`/`pthread_join` and the acceptor loop. The model is sequential.
- `Logger.LoggerState.Enqueue`: waiting while the queue is full becomes the precondition `count < 1024 || !running`.
- `Logger.LoggerState.WriterStep`: waiting while the queue is empty becomes the precondition `count > 0 || !running`.
- `Logger.LoggerState.Log`: the same wait inside enqueue_log becomes the precondition `count < 1024 || !running || !Accepts(level, l)`; a record below the threshold never waits.
- `Logger.LoggerState.RunWriter`: modelled only with `running` cleared, as in `logger_cleanup`. While running, the writer interleaves with loggers, which is concurrency.
- `Logger.LoggerState.constructor`: models a successful `logger_init` only. The failure returns of `fopen` and `pthread_create` (logger.c:63-67, 81-85) are not modelled.
- The timestamp (`gettimeofday`, `localtime`, `strftime` and the milliseconds) is one opaque string. The `vsnprintf` expansion of the format and its arguments is the message text. The `log_trace` ... `log_fatal` wrappers are `Log` with their level.
- `fwrite`, `fflush`, `fclose` and `free` in the logger are left out. The log file is a sequence that the writer appends to, and a write cannot fail.
- The log calls inside `handle_client` (`DEBUG`, `INFO`, `TRACE`, `ERROR`) and `inet_ntop` are left out. They do not affect what is sent.
- `HttpServer.HandleClient`: each `%s` word is taken whole. The overflow of a word of SMALL_BUFFER characters or more past its `char[SMALL_BUFFER]` array is not modelled.
- `RequestHandler.HandlePostPing`: sends the whole pong, which is what handle_post_ping does when SMALL_BUFFER is 24 or more, as `ServerConfig.Valid` requires. The cut body and the over-read of a smaller SMALL_BUFFER are a finding, stated by `RequestHandler.PongOverRead`, not a path of `HandlePostPing`.
- `Utils.Connection.Send`: each send delivers all of its bytes or none. Partial sends are not modelled.
- `close(file_fd)`, `closedir`, `free(listing)`, `free(cinfo)` and `pthread_exit` are left out. They have no effect on what is sent.
- A path `stat` succeeds on is a directory or a regular file. Other file types are not modelled.
- `fstat` is taken to succeed. The size sent is the file's length.
- A file's mtime is given already formatted. The 80-byte `time_str` is not modelled.
- `RequestHandler.AsWrittenCalls` models the as-written listing only as the (pointer, size) pairs handed to each `snprintf`. The writes outside the buffer are not modelled.
- `src/main.c` and `initialize_server` are not part of this model.
- A Dafny `char` stands for one C byte (`char`). `IsSpace` and `Lower` follow the C locale: ASCII white space and ASCII letters only. No other locale or multi-byte encoding is modelled.

## Findings

| source | as written | input that shows it | evidently intended | confidence | as-written member | corrected member |
|---|---|---|---|---|---|---|
| src/request_handler.c:42-66 | After each snprintf, the listing pointer moves forward and the size_t size shrinks by the length the text would have had, even when it was cut | A directory whose header and rows before the footer exceed BUFFER_SIZE * 4 bytes | Advance only by what was stored, so pointer and size stay inside the buffer | not executed | `RequestHandler.ListingOverruns` | `RequestHandler.GenerateDirectoryListing` |
| src/logger.c:187-207 | `offset` grows by each snprintf's would-be length, then the newline is stored at `buffer[offset]` and `offset` bytes are queued | A message of 4096 characters | Clamp the offset to what was stored, and end the line with a newline that fits with its NUL, in place of the last character when the line was cut | not executed | `Logger.LogLineOverflow` | `Logger.FormatLine` |
| src/http_server.c:34-37 | The three uninitialised word arrays keep their old contents when sscanf finds fewer than three words | An empty request (recv returns 0 bytes) | A missing word reads as empty | not executed | `HttpServer.StaleWordsDecide` | `HttpServer.ParseRequestLine` |
| src/request_handler.c:84-85 | strcat appends the request path to ROOT_DIR in `char[SMALL_BUFFER]` with no bound | `GET` of "/" followed by SMALL_BUFFER - 2 letters, with a non-empty ROOT_DIR | ROOT_DIR followed by the whole path, without writing past a buffer | not executed | `RequestHandler.PathConcatOverflows` | `RequestHandler.Resolve` |
| src/utils.c:10-17 | send transmits snprintf's return value, the full header length, from a `char[SMALL_BUFFER]` that holds at most SMALL_BUFFER - 1 of it. send_simple_response (utils.c:30-37) and serve_static_file (request_handler.c:118-126) do the same | Every caller passes a fixed status and type, so it shows with a SMALL_BUFFER below the server's own headers: 101 or less for the simple "500 Internal Server Error" reply (`Utils.ServerErrorOverRead`; at exactly 102 the NUL is sent in place of the final newline), 118 or less for a file header with application/x-rar-compressed and a 19-digit size (at 119 the NUL replaces its last byte); with any SMALL_BUFFER, a status of SMALL_BUFFER characters. handle_post_ping (request_handler.c:14-20) does the same with its 23-byte body: send reads past the array with a SMALL_BUFFER of 22 or less (`RequestHandler.PongOverRead`) | Send the header as formatted, in full | not executed | `Utils.HeaderOverRead` | `Utils.SendResponse` |

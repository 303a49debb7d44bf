# A verified model of a multi-threaded static-file web server

The server accepts TCP connections and hands each one to a `ClientHandler`. The handler reads request lines. It answers a `GET` with a file from its document root, and anything else with an error page. This project models the per-connection protocol logic over abstract inputs:

- the lines a client sends;
- a filesystem given as a map from path to `FileStat(present, isFile, canRead, bytes)`;
- a `Date` header value taken as an opaque string.

It then proves what the handler sends.

Modules, one per concern of `MainWebServer.java`:

- `Util`: `Option`, a `byte` newtype, and `endsWith`/`contains`. It also has a span helper, byte-chunk concatenation, and the one-byte-per-character encoding `PrintWriter` applies to ASCII text.
- `ContentTypes`: `getContentType`, and the last path component that `File.getName()` reports.
- `RequestLines`: the default `StringTokenizer` split and the three-token request line. Also the case-insensitive `GET` test and the one-line keep-alive test.
- `Responses`:
  - the error table (code, page name, reason phrase);
  - the decimal numerals Java writes;
  - the CRLF header block, always labelled `HTTP/1.0`, and how a client reads it back;
  - the bytes of a response on the wire.
- `StaticFiles`: path resolution (`/` becomes `/index.html`), the 404/403/200 decision, and the error responder, as pure functions over the filesystem map.
- `Connection`:
  - `Exchange` and `Session` are the specification of one loop turn and of a whole connection.
  - `FileInputStream` is a class with a read position.
  - `ClientHandler` is a class with an input cursor, an output byte buffer and a `closed` flag. Its methods are proved against `Exchange`/`Session`. Its ghost list of complete responses always accounts for every byte written.
- `Acceptor`: the busy/idle timeout choice.

In two places the code does not do what a reader of HTTP would expect, and the model follows the code:

- A `GET` whose version is anything other than exactly `HTTP/1.1`, including `HTTP/1.0`, does not close the connection. The loop goes back to reading another request line (`GetIsServed`, `Session`).
- When an error page cannot be opened, the `IOException` is caught inside the error responder. Nothing is written and the handler carries on as though the response had been sent (`ErrorReply` is `None`, and `Sent(None)` is empty). After a 400 or 501 the loop still ends. After a 404 or 403 the version and keep-alive rule then applies as if the page had been sent.

## Model

| member | source | states |
|---|---|---|
| ContentTypes.ContentType | src/main/java/com/webserver/MainWebServer.java:269-281 | total: every file name gets one of text/html, image/jpeg, image/png, image/gif or application/octet-stream |
| ContentTypes.ContentTypeIsTableLookup | src/main/java/com/webserver/MainWebServer.java:269-280 | the resolver equals a first-match lookup in the seven-row table (.html, .htm → text/html; .jpg, .jpeg, .JPG → image/jpeg; .png; .gif), with octet-stream when no row matches |
| ContentTypes.SuffixesExclusive | src/main/java/com/webserver/MainWebServer.java:270-276 | no name ends with two different table suffixes, so the order of the checks never matters |
| ContentTypes.UpperCaseJpgIsJpeg | src/main/java/com/webserver/MainWebServer.java:272-273 | `.JPG` is recognised as image/jpeg |
| ContentTypes.UpperCaseJpegIsUnknown | src/main/java/com/webserver/MainWebServer.java:270-279 | suffix checks are case-sensitive: `.JPEG` falls through to application/octet-stream |
| ContentTypes.UpperCasePngIsUnknown | src/main/java/com/webserver/MainWebServer.java:270-279 | `.PNG` falls through to application/octet-stream |
| ContentTypes.FileName | src/main/java/com/webserver/MainWebServer.java:163 | `getName()` is a suffix of the path, holds no `/`, and is preceded by `/` whenever it is shorter than the path |
| ContentTypes.EndsWithFileName | src/main/java/com/webserver/MainWebServer.java:163 | a suffix without `/` ends the file name exactly when it ends the full path |
| ContentTypes.ContentTypeOfFileName | src/main/java/com/webserver/MainWebServer.java:163 | typing by `getName()` gives the same type as typing by the whole path |
| ContentTypes.FileNameAfterSlash | src/main/java/com/webserver/MainWebServer.java:219-233 | the name of `documentRoot + "/" + page` is `page`, so an error page is typed by its own name |
| Util.ContainsAt | src/main/java/com/webserver/MainWebServer.java:124 | `contains("keep-alive")` holds exactly when the text occurs at some index of the line |
| RequestLines.Tokens | src/main/java/com/webserver/MainWebServer.java:108-110 | every token is non-empty and free of the five default delimiters, and there are at most as many tokens as characters; `TokensSplit` and `TokensOfToken` fix which tokens they are |
| RequestLines.TokensOfJoin | src/main/java/com/webserver/MainWebServer.java:108-117 | splitting tokens joined by single spaces gives the same tokens back, in order |
| RequestLines.TokensSkipDelimiter | src/main/java/com/webserver/MainWebServer.java:108 | a leading delimiter does not change the tokens |
| RequestLines.TokensOfToken | src/main/java/com/webserver/MainWebServer.java:108 | a run of non-delimiters on its own is exactly one token |
| RequestLines.TokensSplit | src/main/java/com/webserver/MainWebServer.java:108-110 | a delimiter anywhere splits the tokens into those before it followed by those after it. With `TokensOfToken` this fixes the tokens of every line, including runs of delimiters, tabs and trailing whitespace |
| RequestLines.IsGet | src/main/java/com/webserver/MainWebServer.java:115-120 | the method test; `IsGetCases` proves it accepts exactly the eight upper/lower-case spellings of `get` |
| RequestLines.KeepsAlive | src/main/java/com/webserver/MainWebServer.java:122-126 | the keep-alive test: the line after an `HTTP/1.1` request exists and contains `keep-alive`, which `ContainsAt` proves means at some index; `GetIsServed` ties it to loop continuation |
| Util.EndsWith | src/main/java/com/webserver/MainWebServer.java:270-279 | `endsWith`: the suffix is no longer than the name and equals the name's last characters |
| Util.Contains | src/main/java/com/webserver/MainWebServer.java:124 | `contains`; `ContainsAt` proves it holds exactly when the text occurs at some index |
| RequestLines.Parse | src/main/java/com/webserver/MainWebServer.java:110-117 | a request line is accepted exactly when it has three tokens, and its method, path and version are those three tokens in order |
| RequestLines.ParseJoin | src/main/java/com/webserver/MainWebServer.java:115-117 | `METHOD PATH VERSION` sent with single spaces parses back into the same three parts |
| RequestLines.IsGetCases | src/main/java/com/webserver/MainWebServer.java:115-120 | the method test accepts exactly the eight upper/lower-case spellings of `get` |
| Responses.Code | src/main/java/com/webserver/MainWebServer.java:218-230 | the status code of each error: 400, 403, 404, 501; `ErrorTableConsistent` proves the codes distinct |
| Responses.PageName | src/main/java/com/webserver/MainWebServer.java:218-230 | the page of each error; `ErrorTableConsistent` proves it is `<code>.html` with no `/` |
| Responses.Message | src/main/java/com/webserver/MainWebServer.java:218-230 | the reason phrase of each error: Bad Request, Forbidden, Not Found, Method not supported |
| Responses.ErrorTableConsistent | src/main/java/com/webserver/MainWebServer.java:218-230 | each error page is named `<code>.html`, holds no `/`, and the four codes are distinct |
| Responses.Decimal | src/main/java/com/webserver/MainWebServer.java:197-198 | the numeral written for a status or length is non-empty, all digits, with no leading zero |
| Responses.DecimalRoundTrip | src/main/java/com/webserver/MainWebServer.java:198 | reading the Content-Length numeral back gives the length written |
| Responses.HeaderLines | src/main/java/com/webserver/MainWebServer.java:197-200 | the four header lines before their line ends; `HeaderReadsBack` proves a client reads exactly these back |
| Responses.HeaderText | src/main/java/com/webserver/MainWebServer.java:197-201 | the header block; `HeaderTextPieces` proves it is the five writes in order |
| Responses.HeaderTextPieces | src/main/java/com/webserver/MainWebServer.java:197-201 | the header block is, in order, the `HTTP/1.0` status line, Content-Length, Content-Type, Date and an empty line, each ended by CR LF |
| Responses.EncodeHeaderPieces | src/main/java/com/webserver/MainWebServer.java:195-202 | the bytes of the header block are the bytes of the five writes, in order |
| Responses.ReadLinesOfCrlf | src/main/java/com/webserver/MainWebServer.java:197-201 | lines ended by CR LF are read back one for one by `readLine` |
| Responses.ReadLines | src/main/java/com/webserver/MainWebServer.java:104-107 | `readLine` applied to the end of a stream: lines end at LF, CR or CR LF; `ReadLinesOfCrlf` proves CR LF-ended lines come back one for one |
| Responses.Wire | src/main/java/com/webserver/MainWebServer.java:164-166 | one response on the wire: the header block's bytes, then the body; `SendResponse` proves the handler writes exactly this |
| Responses.WireAll | src/main/java/com/webserver/MainWebServer.java:107-133 | the bytes of several responses in order; `Run` proves the output is `WireAll` of the session's responses |
| Responses.HeaderReadsBack | src/main/java/com/webserver/MainWebServer.java:197-201 | a client reading the header block line by line sees the four header lines and then the empty line |
| StaticFiles.Resolve | src/main/java/com/webserver/MainWebServer.java:154-157 | the file a request names is the document root followed by the path, with `/` replaced by `/index.html` |
| StaticFiles.ErrorReply | src/main/java/com/webserver/MainWebServer.java:213-241 | an error reply carries the table's code and reason phrase and a Content-Length equal to its body; `ErrorReplyFromTable` gives when it exists and what it holds |
| StaticFiles.FileReply | src/main/java/com/webserver/MainWebServer.java:152-179 | the reply to a GET has status 200, 403 or 404 and a Content-Length equal to its body; `FileReplyDecision` gives which status when |
| StaticFiles.ErrorReplyFromTable | src/main/java/com/webserver/MainWebServer.java:213-241 | an error response exists exactly when `documentRoot/<code>.html` can be opened; it then carries the table's code and reason phrase, the page's bytes with their length, and text/html |
| StaticFiles.FileReplyDecision | src/main/java/com/webserver/MainWebServer.java:152-179 | 404 exactly for a missing or non-regular file, 403 exactly for an unreadable regular file, 200 `OK` exactly when the file opens, with body equal to its bytes and Content-Length equal to their count |
| StaticFiles.RootIsIndex | src/main/java/com/webserver/MainWebServer.java:154-157 | `GET /` is answered exactly as `GET /index.html` |
| StaticFiles.FileReplyType | src/main/java/com/webserver/MainWebServer.java:157-164 | a 200 response is typed by the requested file's name |
| Connection.Exchange | src/main/java/com/webserver/MainWebServer.java:107-132 | each loop turn reads at least one line and never past the input |
| Connection.Session | src/main/java/com/webserver/MainWebServer.java:107-133 | a connection stops having read between its starting line and the end of the input |
| Connection.BadRequestEndsSession | src/main/java/com/webserver/MainWebServer.java:110-113 | a line without exactly three tokens gets the 400 page, if it opens, and nothing more is read or sent |
| Connection.UnsupportedMethodEndsSession | src/main/java/com/webserver/MainWebServer.java:127-132 | a three-token line whose method is not GET gets the 501 page, if it opens, and nothing more is read or sent |
| Connection.GetIsServed | src/main/java/com/webserver/MainWebServer.java:120-126 | a GET is answered by the file decision and never with 400 or 501. A version other than `HTTP/1.1` goes on to the next line. `HTTP/1.1` consumes one more line and goes on exactly when that line exists and contains `keep-alive` |
| Connection.TurnWellFormed | src/main/java/com/webserver/MainWebServer.java:152-179 | each turn sends only responses with a known status, a Content-Length equal to the body length, and text/html on error pages |
| Connection.ErrorReplyWellFormed | src/main/java/com/webserver/MainWebServer.java:231-236 | an error response is well formed |
| Connection.FileReplyWellFormed | src/main/java/com/webserver/MainWebServer.java:159-179 | the response to a GET is well formed |
| Connection.SessionResponsesWellFormed | src/main/java/com/webserver/MainWebServer.java:107-133 | every response on a connection is well formed |
| Connection.RejectionIsLast | src/main/java/com/webserver/MainWebServer.java:110-132 | a 400 or 501 response is always the last response of its connection |
| Connection.FileInputStream.constructor | src/main/java/com/webserver/MainWebServer.java:162 | a stream opened on a file starts at its first byte |
| Connection.FileInputStream.Read | src/main/java/com/webserver/MainWebServer.java:253 | `read(buffer)` gives -1 at end of file, otherwise between 1 and 1024 of the next bytes, copied into the buffer |
| Connection.ClientHandler.constructor | src/main/java/com/webserver/MainWebServer.java:93-96 | a new handler has read nothing, written nothing and is open |
| Connection.ClientHandler.ReadLine | src/main/java/com/webserver/MainWebServer.java:107 | the next line and one step of the cursor, or null at the end with the cursor unchanged |
| Connection.ClientHandler.SendResponseHeaders | src/main/java/com/webserver/MainWebServer.java:192-203 | the five writes append exactly the bytes of the header block |
| Connection.ClientHandler.ReadFile | src/main/java/com/webserver/MainWebServer.java:249-260 | the copy loop drains the file. The chunks it writes each hold 1 to 1024 bytes, and together they are the file's remaining bytes in order. The output grows by exactly those bytes |
| Connection.ClientHandler.SendResponse | src/main/java/com/webserver/MainWebServer.java:164-166 | a whole response (header block, then body) is appended, and the output stays equal to the wire form of every response sent |
| Connection.ClientHandler.SendErrorResponse | src/main/java/com/webserver/MainWebServer.java:213-241 | appends the error response for the code, or nothing when its page cannot be opened |
| Connection.ClientHandler.SendFile | src/main/java/com/webserver/MainWebServer.java:152-180 | appends the response the file decision prescribes |
| Connection.ClientHandler.Close | src/main/java/com/webserver/MainWebServer.java:136-142 | closing happens on an open handler and leaves it closed |
| Connection.ClientHandler.ServeRequest | src/main/java/com/webserver/MainWebServer.java:108-132 | one loop body sends what `Exchange` prescribes, advances the cursor to its next line and reports whether the loop goes on |
| Connection.ClientHandler.Run | src/main/java/com/webserver/MainWebServer.java:102-143 | the handler sends exactly the responses of `Session`, in order, as bytes on the output. It stops at `Session`'s end line and is closed afterwards, exactly once |
| Acceptor.ConnectionTimeout | src/main/java/com/webserver/MainWebServer.java:69 | 15000 ms exactly when at least 10 connections are active, 60000 ms exactly when fewer are |
| Acceptor.TimeoutNonIncreasing | src/main/java/com/webserver/MainWebServer.java:69 | more load never lengthens the timeout, and every timeout is positive |

## Left out

- Sockets, threads, the accept loop and `setSoTimeout` (lines 57-75) are network and concurrency plumbing. Only the timeout choice is modelled.
- `Thread.activeCount() - 2` (line 68) is a racy thread count. `ConnectionTimeout` takes the count as an integer input.
- The `Date` header value depends on the clock. It is a constant string per handler.
- Java's file APIs are replaced by a map from the path string to a `FileStat`:
  - the path string is `documentRoot + path`, or `documentRoot + "/" + page`;
  - `java.io.File` path normalisation is not modelled. One consequence: `ContentTypes.FileName` of a path ending in `/` is empty, while `File.getName()` drops the trailing slash, so `GET /a.html/` is typed application/octet-stream here and text/html by the server;
  - `file.length()` is the length of the file's bytes.
- The error page's `FileInputStream` is never closed (line 231). This leak is not observable in the model.
- Mid-stream `IOException`s inside `readFile` (line 257) and `sendFile` (line 167) are not modelled. A read either succeeds or reports the end.
- A file that stops being openable between the checks and the open on the 200 path is not modelled. The checks and the open see the same filesystem.
- A read that times out (`SocketTimeoutException`) is treated as the end of the input, since both close the connection.
- `BufferedReader`'s splitting of the byte stream into lines is not modelled. The handler's input is a sequence of lines. `ReadLines` models that splitting only for the header block a client reads back.
- Command-line parsing in `main` (lines 31-55) is startup code and is not part of this model.
- Logging (`System.out`, `System.err`, `printStackTrace`) is not modelled.
- The closing of the reader, writer, stream and socket inside `closeConnection` (lines 289-304) is modelled as one `closed` flag.
- Connection.ClientHandler.SendResponseHeaders: it encodes each character as its low 8 bits. This equals `PrintWriter`'s platform-charset output only for ASCII; a non-ASCII date or file type is not modelled byte for byte.
- RequestLines.IsGetCases: it models `toUpperCase` only on ASCII letters. No non-ASCII character upper-cases or case-folds to `G`, `E` or `T`, so the GET test is the same. Other non-ASCII case mappings are not modelled.
- The `NullPointerException` that `sendErrorResponse` would raise for a code outside the table cannot happen. Callers pass only 400, 403, 404 and 501, and `ErrorStatus` has just those four.

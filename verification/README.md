# WebServer HTTP core in Dafny

This project models the HTTP logic of a C++ epoll web server, together with the decisions made around each connection. It covers four pieces.

- **Request parser** (`HttpRequest`, `code/http/httprequest.cpp`).
  - A line state machine, REQUEST_LINE → HEADERS → BODY → FINISH, run over the read buffer.
  - The request-line and header regular expressions, written as explicit splitting functions.
  - Path normalisation and the keep-alive test.
  - The in-place `application/x-www-form-urlencoded` decoder. It is modelled exactly as written: `%XX` keeps its `%` and gets two "digit" characters, and `ConverHex` returns a decimal digit's character code.
- **Response synthesiser** (`HttpResponse`, `code/http/httpresponse.cpp`).
  - Code resolution over an abstract file system, and error-page substitution.
  - The status line from the reason table, the header block and the MIME table.
  - The inline error page, whose `Content-length` is exact.
  - A "mapped" flag that stands for the `mmap`ed file.
- **Connection driver** (`HttpConn`, `code/http/httpconn.cpp`, `code/http/httpconn.h`).
  - The live-connection counter.
  - `read`, with the socket's answers given as a list of chunks.
  - The two-segment `writev` cursor. How the kernel answers each `writev` call is given as a function of the call's index.
  - `process`, which picks 200 or 400 and assembles the segments.
- **Server** (`WebServer`, `code/server/webserver.cpp`).
  - Trigger-mode flags, event dispatch, and the accept/refuse rule with the `MAX_FD` bound.
  - What happens after a read or a write: re-arm for input, re-arm for output, process again, or close.
  - The port check and client registration.
  - A timer that fires closes its connection.
  - `WebServerLemmas.RunInv` proves an invariant over any run starting from construction. A run interleaves ready descriptors from `epoll_wait` with timer firings. The invariant says the live counter equals the number of open connections, that number stays within `MAX_FD`, and every socket armed for output has a response ready. That last part is derived, not assumed: the run only requires that `epoll_wait` reports output on a socket registered for it.

`Text` holds what the protocol modules share: CR LF search, character search, and `std::to_string` together with its reader.

Properties are stated against partners:

- **Round trips.** A request line or header written by a client is read back exactly. A status line and a `Content-length` line are read back by an RFC 9112 reader. A form body `k1=v1&…` is decoded to the pairs it was written from when no key or value holds `=`, `&`, `+` or `%`, the keys are distinct and the last value is non-empty. Outside those conditions the decoder's own rules apply, as `ExpectedPairs` and `Rewrite` state: a repeated trailing key is dropped, an empty last value stores nothing, and `%XX` is rewritten as written.
- **Reference definitions.** `Rewrite` is the in-place rewrite as a left-to-right function. `StoreAll` is last-write-wins storage. `HexValue` is standard hex.
- **Invariants** of the server state, kept by every event.
- **Exact arithmetic** of the write cursor.

Four behaviours of the source are reproduced, not corrected:

- A malformed request line is answered with the 404 page.
- A stale second `iovec` keeps counting in `ToWriteBytes`.
- Level-triggered writes can close a connection with bytes still unsent.
- A trailing form pair whose key was already stored is dropped.

## Model

| member | source | states |
|---|---|---|
| Text.FindCrlf | code/http/httprequest.cpp:32 | the line end `parse` searches for: the first CR LF, or the end of the buffer when there is none |
| Text.IndexOf | code/http/httprequest.cpp:92 | the first colon of a header line: the index holds the character and no earlier index does, or the character is absent |
| Text.LastIndexOf | code/http/httpresponse.cpp:160 | `find_last_of('.')`: the index holds the character and nothing after it does, or it is absent |
| Text.IntToDecimal | code/http/httpresponse.cpp:113 | `to_string(code_)`: digits whose value is the number, preceded by `-` for a negative number |
| Text.NatToDecimal | code/http/httpresponse.cpp:144 | `to_string` of a size: a non-empty digit string without a leading zero |
| Text.DecimalRoundTrip | code/http/httpresponse.cpp:188 | reading back the digits `to_string` writes gives the number written |
| Text.DecimalUnique | code/http/httpresponse.cpp:188 | the inverse direction: every digit string without a leading zero is what `to_string` writes for its value |
| Text.LeadingDigitPositive | code/http/httpresponse.cpp:113 | a numeral that does not start with `0` has a positive value |
| HttpRequest.SplitRequestLine | code/http/httprequest.cpp:77-89 | a match has three space-free fields, and the line is exactly `M SP P SP HTTP/V` rebuilt from them |
| HttpRequest.SplitRequestLineParts | code/http/httprequest.cpp:78 | the fields cut at the two spaces rebuild the line, and the version has no space |
| HttpRequest.SplitHeader | code/http/httprequest.cpp:91-100 | a match splits at the first colon and drops at most one space; there is no match exactly when the line has no colon or its value holds CR or LF |
| HttpRequest.Step | code/http/httprequest.cpp:36-55 | one pass fails only in REQUEST_LINE, never moves the state backwards, and reaches FINISH when it takes the body |
| HttpRequest.Loop | code/http/httprequest.cpp:31-58 | the rest is a suffix of the buffer; failure leaves buffer and request untouched; the state only advances; a stop before FINISH leaves a rest without CR LF |
| HttpRequest.DecodeFrom | code/http/httprequest.cpp:149-181 | the rewrite keeps the body's length, and no stored key is ever removed |
| HttpRequest.DecodeForm | code/http/httprequest.cpp:136-182 | an empty body changes nothing; otherwise the body's length is kept and existing keys stay |
| HttpRequest.UserVerify | code/http/httprequest.cpp:186-190 | an empty name or password is refused without consulting the store; otherwise the store decides |
| HttpRequest.ParsePost | code/http/httprequest.cpp:116-134 | decoding happens only for a form POST, and then body and post are the decoder's; a form POST to another page keeps its path; a form POST to the login or register page goes to the welcome page exactly when `UserVerify` accepts the decoded name and password (as a login exactly for `/login.html`), and to the error page otherwise |
| HttpRequest.Parse | code/http/httprequest.cpp:26-61 | an empty buffer fails with nothing changed; a failure keeps buffer and request; the rest is a suffix of the buffer |
| HttpRequest.ParseHeader | code/http/httprequest.cpp:91-100 | a matching line stores its value under its key, replacing an earlier one and keeping every other header and the state; a line that does not match (one without a colon, say) moves to BODY and changes nothing else |
| HttpRequest.GetPost | code/http/httprequest.cpp:266-280 | both overloads: the stored value for a present key, the empty string for an absent one; the empty key is accepted, as the `const char*` overload accepts it |
| HttpRequestLemmas.NormalizePathCases | code/http/httprequest.cpp:63-75 | for `NormalizePath`: `/` becomes `/index.html`, the six bare page names gain `.html`, any other path is kept, and normalising twice changes nothing more |
| HttpRequestLemmas.SplitRequestLineComplete | code/http/httprequest.cpp:77-89 | every space-free triple written as `M SP P SP HTTP/V` is matched, giving back exactly those fields (the converse of `SplitRequestLine`'s contract) |
| HttpRequestLemmas.SplitHeaderComplete | code/http/httprequest.cpp:91-100 | `Name: value`, and `Name:value` when the value does not start with a space, read back as exactly that pair |
| HttpRequestLemmas.ParseHeaderStores | code/http/httprequest.cpp:91-100 | a header line `Name: value` is stored as that pair, whatever was stored under the name before, and the parser stays in HEADERS |
| HttpRequestLemmas.SplitHeaderAt | code/http/httprequest.cpp:92-97 | after the first colon, one leading space is dropped and everything else is the value |
| HttpRequestLemmas.StoreAllLookup | code/http/httprequest.cpp:95 | last-write-wins storage keeps the last pair's value for a key, and keeps the old entry when no pair has that key |
| HttpRequestLemmas.LoopPass | code/http/httprequest.cpp:32-57 | a pass over a line ended by CR LF retires exactly that line and its CR LF |
| HttpRequestLemmas.HeadersScan | code/http/httprequest.cpp:44-49 | a block of well-formed header lines is stored in order, each line's CR LF consumed |
| HttpRequestLemmas.LoopLastPass | code/http/httprequest.cpp:56 | a last line without CR LF is interpreted but stays in the buffer |
| HttpRequestLemmas.BlankLineScan | code/http/httprequest.cpp:46-52 | the blank line moves HEADERS to FINISH when at most two bytes remain, else to BODY, and the body line is then taken whole |
| HttpRequestLemmas.RequestScan | code/http/httprequest.cpp:26-61 | scanning a request as a client writes it recovers the method, the normalised path, the version, the headers (last write wins) and the body |
| HttpRequestLemmas.ParseRequestText | code/http/httprequest.cpp:26-61 | `parse` accepts such a request and leaves nothing unread, except a one-line body that stays in the buffer |
| HttpRequestLemmas.RootIsIndex | code/http/httprequest.cpp:64-65 | a request for `/` parses exactly like one for `/index.html` |
| HttpRequestLemmas.KeepAliveOfRequestText | code/http/httprequest.cpp:19-24 | `IsKeepAlive` grants keep-alive exactly for version `1.1` with a last `Connection` header equal to `keep-alive`; there is no default |
| HttpRequestLemmas.ParseAcceptsIff | code/http/httprequest.cpp:28-43 | `parse` fails exactly on an empty buffer or a rejected first line, and a failure keeps the initial request |
| HttpRequestLemmas.ParseOk | code/http/httprequest.cpp:26-61 | on a non-empty buffer, form decoding does not change whether `parse` accepts |
| HttpRequestLemmas.FirstLineDecides | code/http/httprequest.cpp:38-41 | in REQUEST_LINE the loop accepts exactly when the first line splits |
| HttpRequestLemmas.ConverHexDeparts | code/http/httprequest.cpp:109-113 | `ConverHex` agrees with standard hex exactly on letters; a decimal digit gives its character code |
| HttpRequestLemmas.ConverHexRaw | code/http/httprequest.cpp:109-113 | any other character gives its own code, read as a signed octet above 127 |
| HttpRequestLemmas.DecodedBodyIsRewrite | code/http/httprequest.cpp:149-175 | the body left behind is the scanned prefix followed by the reference rewrite of the rest |
| HttpRequestLemmas.RewriteKept | code/http/httprequest.cpp:149-175 | a character other than `+` and `%` is kept in place |
| HttpRequestLemmas.RewritePlus | code/http/httprequest.cpp:156-158 | `+` becomes a space in place |
| HttpRequestLemmas.RewritePercent | code/http/httprequest.cpp:159-165 | `%c1c2` keeps its `%` and gets `num / 10 + '0'` and `num % 10 + '0'` (C++ truncating division) in place of `c1 c2` |
| HttpRequestLemmas.DecodeFormBody | code/http/httprequest.cpp:136-182 | the decoder leaves exactly the reference rewrite of the body behind |
| HttpRequestLemmas.SkipPlain | code/http/httprequest.cpp:149-175 | characters other than `=`, `&`, `+` and `%` are passed over with no effect on the outcome |
| HttpRequestLemmas.DecodeAtEquals | code/http/httprequest.cpp:152-155 | at `=` the pending token becomes the key and a new token starts |
| HttpRequestLemmas.DecodeAtAmpersand | code/http/httprequest.cpp:166-171 | at `&` the pending token is stored as the key's value and a new token starts |
| HttpRequestLemmas.DecodeAtEnd | code/http/httprequest.cpp:177-181 | after the loop the last token is stored only when its key is new and the token is non-empty |
| HttpRequestLemmas.DecodePairsFrom | code/http/httprequest.cpp:149-181 | decoding `k1=v1&…&kn=vn` from a pair boundary stores the reference result and leaves the body unchanged |
| HttpRequestLemmas.DecodeEncodedPairs | code/http/httprequest.cpp:136-182 | a body written from plain pairs is decoded to the reference result: every pair but the last stored in order, the last only under a new key with a non-empty value |
| HttpRequestLemmas.DistinctPairsDecoded | code/http/httprequest.cpp:136-182 | plain pairs with distinct keys and a non-empty last value decode to exactly those pairs, the last included, and nothing else |
| HttpRequestLemmas.ExpectedDistinct | code/http/httprequest.cpp:136-182 | with distinct keys and a non-empty last value, last-write-wins storage of the pairs holds each pair and no other key |
| HttpRequestLemmas.TrailingDuplicateIgnored | code/http/httprequest.cpp:177 | a trailing pair whose key an earlier pair stored is dropped, and the earlier value stays |
| HttpRequestLemmas.FormExamplePlain | code/http/httprequest.cpp:136-182 | `a=1&b=2` stores `a` ↦ `1` and `b` ↦ `2` |
| HttpRequestLemmas.FormExampleEmptyKey | code/http/httprequest.cpp:136-182 | `=x&` stores `x` under the empty key, and `GetPost` of `""` gives `x` back |
| HttpRequestLemmas.GetPostOfEncoded | code/http/httprequest.cpp:266-280 | from a plain form body with distinct keys and a non-empty last value, `GetPost` reads each pair's value back under its key, and the empty string for any key not written |
| HttpRequestLemmas.FormExampleEscape | code/http/httprequest.cpp:159-165 | `b=%20` stores `b` ↦ `%`, octet 132, `8`: `ConverHex('2')` is 50, so `num` is 848 |
| HttpResponse.UnmapFile | code/http/httpresponse.cpp:148-156 | nothing stays mapped, and every other field is kept |
| HttpResponse.Init | code/http/httpresponse.cpp:57-66 | any mapping is released, the metadata is zeroed, and code, path, keep-alive and root take the given values |
| HttpResponse.ResolveCode | code/http/httpresponse.cpp:70-81 | only the code and the metadata (the `stat` result, `Stat`) change; the code becomes 200, 403 or 404, or stays as it was |
| HttpResponse.ErrorHtml | code/http/httpresponse.cpp:96-101 | an error code serves its page and re-reads that page's metadata; any other code changes nothing |
| HttpResponse.StatusLine | code/http/httpresponse.cpp:103-114 | a code with a reason phrase is kept, any other becomes 400, and nothing else changes |
| HttpResponse.FileType | code/http/httpresponse.cpp:158-170 | the type is a table value or `text/plain`, and a path without `.` is `text/plain` |
| HttpResponse.ErrorContent | code/http/httpresponse.cpp:172-190 | the output is longer than the error page it carries |
| HttpResponse.AddContent | code/http/httpresponse.cpp:127-146 | only the mapped flag changes, and it is set exactly when the file opens or a mapping was already held |
| HttpResponse.MakeResponse | code/http/httpresponse.cpp:68-86 | the final code has a reason phrase, and keep-alive and root are kept |
| HttpResponseLemmas.UnmapIdempotent | code/http/httpresponse.cpp:148-156 | unmapping twice is unmapping once, and with nothing mapped it changes nothing |
| HttpResponseLemmas.InitReleases | code/http/httpresponse.cpp:57-66 | `Init` equals `Init` after an unmap, and equals a fresh response with the given fields |
| HttpResponseLemmas.ThreeDigits | code/http/httpresponse.cpp:32-37 | every code of the reason table is written as three digits |
| HttpResponseLemmas.StatusLineReadBack | code/http/httpresponse.cpp:103-114 | an RFC 9112 status-line reader gets back the final code and its reason phrase |
| HttpResponseLemmas.ReadLengthHeader | code/http/httpresponse.cpp:144 | a `Content-length` reader gets back the number written, with what follows the blank line untouched |
| HttpResponseLemmas.ErrorContentFramed | code/http/httpresponse.cpp:172-190 | the inline error page declares exactly the number of bytes that follow it |
| HttpResponseLemmas.SuffixKeysShape | code/http/httpresponse.cpp:10-30 | every table key is a dot followed by dot-free text |
| HttpResponseLemmas.FileTypeOfSuffix | code/http/httpresponse.cpp:158-170 | a path ending in a table suffix gets that suffix's type, whatever precedes it |
| HttpResponseLemmas.FileTypeUnknown | code/http/httpresponse.cpp:158-170 | a path whose last `.` starts an unknown suffix is served as `text/plain` |
| HttpResponseLemmas.TypesHaveNoLineBreak | code/http/httpresponse.cpp:10-30 | no MIME type, trailing spaces included, holds CR or LF |
| HttpResponseLemmas.ConnectionLinesAreBlock | code/http/httpresponse.cpp:117-122 | the connection lines are a header block: `Connection: keep-alive` and `keep-alive: max=6, timeout=120`, or `Connection: close` |
| HttpResponseLemmas.HeaderTextIsBlock | code/http/httpresponse.cpp:116-125 | `AddHeader_` (`HeaderText`) writes exactly the header block of the connection pairs followed by `Content-type` |
| HttpResponseLemmas.ResponseHeadersWellFormed | code/http/httpresponse.cpp:116-125 | every response header name is colon-free, and no name or value holds a line break |
| HttpResponseLemmas.ResponseConnection | code/http/httpresponse.cpp:117-122 | the last `Connection` value is `keep-alive` or `close`, as keep-alive is set |
| HttpResponseLemmas.ResponseHeadersReadBack | code/http/httpresponse.cpp:116-125 | the header parser reads the block back as these pairs, and grants keep-alive exactly when the response does |
| HttpResponseLemmas.MakeResponseStages | code/http/httpresponse.cpp:68-86 | the final code and page come from code resolution, error page and status line alone |
| HttpResponseLemmas.StagedError | code/http/httpresponse.cpp:96-114 | a resolved error code keeps its code and serves its error page |
| HttpResponseLemmas.StagedMissing | code/http/httpresponse.cpp:70-73 | a missing path or a directory gives 404 and the 404 page |
| HttpResponseLemmas.StagedUnreadable | code/http/httpresponse.cpp:74-77 | an existing file that is not world-readable gives 403 and the 403 page |
| HttpResponseLemmas.StagedServable | code/http/httpresponse.cpp:78-81 | for a servable file, -1 becomes 200, a code with a reason is kept, and any other code becomes 400 without a page change |
| HttpResponseLemmas.MakeResponseCode | code/http/httpresponse.cpp:68-86 | the four-way resolution of the final code and page, by file state and incoming code |
| HttpResponseLemmas.MakeResponseServesFile | code/http/httpresponse.cpp:68-86 | a servable file asked for with 200 is answered 200 with that file |
| HttpResponseLemmas.MakeResponseMissing | code/http/httpresponse.cpp:70-73 | a missing file or a directory is answered with the 404 page |
| HttpResponseLemmas.MakeResponseContent | code/http/httpresponse.cpp:68-86 | the output is status line, header block, then the file's length line or the inline error page, and the mapping is held exactly when the page opens |
| HttpConn.NewConn | code/http/httpconn.cpp:8-12 | a new connection has no descriptor, is closed and holds no mapping |
| HttpConn.InitConn | code/http/httpconn.cpp:18-27 | the counter rises by one; the connection is open on the descriptor with both buffers empty; request, response and segments are kept |
| HttpConn.Close | code/http/httpconn.cpp:29-37 | the mapping is always released; only an open connection is closed and uncounted |
| HttpConn.Requested | code/http/httpconn.h:40-42 | what `writev` is asked for never exceeds `ToWriteBytes`, the sum of both segments' lengths |
| HttpConn.Advance | code/http/httpconn.cpp:78-90 | after a transfer of `len` bytes, the cursor stays ready, only buffer and segments change, and both `ToWriteBytes` and the request shrink by exactly `len` |
| HttpConn.Transfer | code/http/httpconn.cpp:71 | `writev` returns 0 exactly when nothing is asked, something exactly when the socket has room, and -1 otherwise |
| HttpConn.WriteFrom | code/http/httpconn.cpp:68-93 | what is sent plus what remains equals what there was; the loop stops on a non-positive result (with its `errno`), or, level-triggered, once at most 10240 bytes remain |
| HttpConn.Write | code/http/httpconn.cpp:68-93 | no byte is lost from the count, and in edge-triggered mode the last `writev` result is never positive |
| HttpConn.Read | code/http/httpconn.cpp:55-66 | only the read buffer changes and it only grows; edge-triggered reads end on a non-positive result; `errno` is set only with -1 |
| HttpConn.Process | code/http/httpconn.cpp:95-122 | it fails exactly on an empty read buffer; otherwise segment 0 is the whole appended write buffer, and segment 1 is in use exactly when a non-empty file is mapped, with the file's length (`FileLen`) |
| HttpConnLemmas.InitThenClose | code/http/httpconn.cpp:18-37 | closing a freshly initialised connection gives the count back |
| HttpConnLemmas.CloseIdempotent | code/http/httpconn.cpp:29-37 | a second `Close` changes nothing, so the counter drops at most once |
| HttpConnLemmas.AdvanceSplits | code/http/httpconn.cpp:78-90 | no byte is lost or repeated: the header bytes sent plus the buffer left are the old buffer, and the file range sent ends where segment 1 now starts |
| HttpConnLemmas.AdvanceCompose | code/http/httpconn.cpp:78-90 | two transfers leave the cursor where one transfer of their sum would |
| HttpConnLemmas.WriteDrainsWithRoom | code/http/httpconn.cpp:68-93 | edge-triggered, with a socket that never refuses, `write` sends everything and ends on the `writev` that returns 0 |
| HttpConnLemmas.WriteLeavesStaleSegment | code/http/httpconn.cpp:109-119 | with one segment in use, segment 1 is never touched, and its stale length still counts in `ToWriteBytes` |
| HttpConnLemmas.ReadAppendsReceived | code/http/httpconn.cpp:55-66 | `read` appends exactly the bytes received: chunks up to the first failure or end of stream, only the first one when level-triggered |
| HttpConnLemmas.ReadEndsET | code/http/httpconn.cpp:58-63 | edge-triggered reading ends with -1 and `EAGAIN` on a drained socket, and with 0 and `errno` 0 at the end of the stream |
| HttpConnLemmas.ProcessForgetsRequest | code/http/httpconn.cpp:96 | `process` starts from `HttpRequest::Init` (code/http/httprequest.cpp:12-17), so the request held before does not matter, and a failed call leaves an empty request in REQUEST_LINE |
| HttpConnLemmas.ProcessResponse | code/http/httpconn.cpp:100-107 | the response is built from `Init` with 200 and the request's keep-alive on success, and 400 without keep-alive on failure |
| HttpConnLemmas.ProcessKeepAlive | code/http/httpconn.cpp:100-105 | the response keeps the connection open exactly when the parsed request asks for it (`HttpConn.IsKeepAlive`), and never after a failed parse |
| HttpConnLemmas.BadRequestLineServes404 | code/http/httpconn.cpp:104 | a rejected request line is answered with the 404 page and a close, because the empty path resolves to the root, a directory or missing; the read buffer is kept |
| HttpConnLemmas.BadLineRejected | code/http/httprequest.cpp:38-41 | a request line that does not split fails the parse, keeps the initial request and leaves the buffer unread |
| HttpConnLemmas.GoodRequestServes200 | code/http/httpconn.cpp:102 | a parsed request for a servable file is answered 200 with that file |
| HttpConnLemmas.MadeEndsWithContent | code/http/httpresponse.cpp:127-146 | whatever precedes it, the response text ends with its content part |
| HttpConnLemmas.ContentCases | code/http/httpconn.cpp:114-119 | the content part is the file's length line when segment 1 is in use, and the inline error page when the file does not open; the model's third case, a zero length line for an empty file, stands for a call on which the source crashes (see Left out) |
| HttpConnLemmas.ProcessEndsWithContent | code/http/httpconn.cpp:107-119 | the write buffer ends with the content part of the final response |
| HttpConnLemmas.ProcessFramed | code/http/httpconn.cpp:107-119 | the write buffer ends with a length line equal to segment 1's length, or with the inline error page; the length line 0 for an empty file exists only under the model's assumption that `mmap` succeeds |
| WebServer.InitEventMode | code/server/webserver.cpp:47-73 | both sets hold RDHUP, connections are one-shot; connections are edge-triggered unless the mode is 0 or 2, the listener unless it is 0 or 1 |
| WebServer.WaitTimeout | code/server/webserver.cpp:76-82 | -1 (block) without a connection timeout, else the timer's next expiry |
| WebServer.Dispatch | code/server/webserver.cpp:87-103 | the listener accepts; otherwise a hang-up or error closes before a read, which comes before a write |
| WebServer.Create | code/server/webserver.cpp:222-225 | the server starts with no users; it is closed exactly when the port is outside 1024 to 65535 or the rest of socket setup fails |
| WebServer.ModFd | code/server/webserver.cpp:181-193 | only a registered descriptor's flags change, to the given flags |
| WebServer.CloseConn | code/server/webserver.cpp:117-122 | the descriptor is deregistered and its connection closed; the counter drops only if it was open |
| WebServer.AddClient | code/server/webserver.cpp:124-136 | the client is registered for input plus the connection flags, gets a timer only with a positive timeout, and is counted once |
| WebServer.DealListen | code/server/webserver.cpp:143-156 | every accepted client is counted; at most one is refused, only at `MAX_FD`; a level-triggered listener takes at most one |
| WebServer.OnProcess | code/server/webserver.cpp:187-193 | the socket is re-armed for output when a response was built, else for input |
| WebServer.OnRead | code/server/webserver.cpp:175-185 | a read that ends in 0, or in an error other than `EAGAIN`, closes the connection; any other read (`AfterRead` gives ProcessIt) processes the connection and re-arms it for output when a response was built, else for input, leaving the other users and the count alone |
| WebServer.OnWrite | code/server/webserver.cpp:195-216 | any outcome other than "all sent on keep-alive" or "`EAGAIN` with bytes left" closes the connection; `EAGAIN` with bytes left keeps the written connection and re-arms it for output; all sent on keep-alive processes it again and re-arms it as `OnProcess` does |
| WebServer.Expire | code/server/webserver.cpp:127-131 | a firing timer closes the connection; an already closed one leaves the counter alone |
| WebServer.Step | code/server/webserver.cpp:87-103 | one event keeps the configuration, and an ignored event changes nothing |
| WebServerLemmas.CreateInv | code/server/webserver.cpp:222-225 | a new server satisfies the invariant |
| WebServerLemmas.CloseConnInv | code/server/webserver.cpp:117-122 | closing keeps the counter equal to the number of open connections |
| WebServerLemmas.AddClientInv | code/server/webserver.cpp:124-136 | adding a fresh client below `MAX_FD` keeps the invariant |
| WebServerLemmas.DealListenInv | code/server/webserver.cpp:143-156 | accepting fresh descriptors never exceeds `MAX_FD` and keeps the invariant |
| WebServerLemmas.OnProcessInv | code/server/webserver.cpp:187-193 | processing keeps the invariant; a socket armed for output has a ready response |
| WebServerLemmas.OnReadInv | code/server/webserver.cpp:175-185 | a read event keeps the invariant |
| WebServerLemmas.OnWriteInv | code/server/webserver.cpp:195-216 | a write event keeps the invariant |
| WebServerLemmas.FeasibleDefined | code/server/webserver.cpp:87-103 | under the invariant, an event the world can deliver is one the loop can handle; in particular a write event finds a ready response |
| WebServerLemmas.StepInv | code/server/webserver.cpp:87-103 | every event the world can deliver is handled and keeps the invariant |
| WebServerLemmas.ExpireInv | code/server/webserver.cpp:127-131 | a timer firing on an open or a closed connection keeps the invariant, including that only registered clients hold timers |
| WebServerLemmas.ArmedOutIsReady | code/server/webserver.cpp:95-97 | an event asking to write always finds a ready response |
| WebServerLemmas.RunInv | code/server/webserver.cpp:75-106 | over any run of ready events and timer firings, the counter equals the number of open connections and stays within `MAX_FD`, and every socket armed for output has a ready response |
| WebServerLemmas.ServeFromStart | code/server/webserver.cpp:75-106 | a server fresh from the constructor satisfies the invariant, so the count bound holds after any run from it |
| WebServerLemmas.DealListenFills | code/server/webserver.cpp:143-156 | an edge-triggered listener takes fresh descriptors until `MAX_FD` and refuses the next one |
| WebServerLemmas.ReadOutcomes | code/server/webserver.cpp:175-185 | for `AfterRead`: a drained edge-triggered read goes on to `process`; one that met the end of the stream closes |
| WebServerLemmas.AfterWriteComplete | code/server/webserver.cpp:195-216 | for `AfterWrite`: a connection is processed again exactly when all is sent on keep-alive, and re-armed for output exactly on `EAGAIN` with bytes left |
| WebServerLemmas.StaleSegmentNeverReprocesses | code/server/webserver.cpp:200-206 | with a stale second segment the connection never counts as fully written, so keep-alive never serves a second request on it |
| WebServerLemmas.LevelTriggeredDropsTail | code/server/webserver.cpp:200-215 | a level-triggered transfer that leaves at most 10240 bytes unsent closes the connection with those bytes never sent |
| WebServerLemmas.DroppedTailExample | code/server/webserver.cpp:200-215 | a 10-byte response on a socket that takes 4 bytes closes with 6 bytes unsent |

## Left out

- `code/server/epoller.cpp` is not part of this model. Its calls are thin wrappers, so the interest list is a map from descriptor to flags.
- Socket I/O is not modelled. This covers the system calls of `InitSocket_` after the port check (they become the `socketOk` flag), the `send` of `SendError_`, `SetFdNonblock`, and linger. The results of `accept`, `readv` and `writev` are inputs.
- `stat`, `open`, `mmap` and `munmap` are an abstract map from full path to metadata plus an "opens" flag. A mapping is assumed to succeed. The `*mmRet == -1` check reads the first mapped word rather than the result of `mmap`, so it is not modelled. That assumption is false for an empty servable file: `mmap` of length 0 fails with `EINVAL` and returns `MAP_FAILED`, and `*mmRet` at `code/http/httpresponse.cpp:138` then dereferences that invalid address, so the server crashes. The model instead records a mapping and sends `Content-length: 0`. A non-empty file whose first four bytes read as -1 is answered with the error page in the source, and served in the model.
- `UserVerify`'s SQL and its connection pool are the oracle `store`. Only the empty name or password rule is modelled.
- Logging is not modelled, since it has no effect on the logic.
- The heap timer's internals are not modelled: ordering, `adjust` in `ExtentTime_`, and `GetNextTick`. A timer's firing is `Expire`, and the next tick is an input to `WaitTimeout`.
- The thread pool, concurrency, and EPOLLONESHOT exclusivity are not modelled. Tasks run one at a time, to completion, in a sequential model.
- The `addr_` field of a connection is not modelled: it is only logged.
- HttpRequest.GetPost: one function stands for both overloads, so it has no precondition. The `const char*` overload accepts the empty key. The `std::string` overload's `assert(key != "")`, which aborts a debug build, is not modelled.
- HttpConn.WriteFrom: the `ToWriteBytes() == 0` break at `code/http/httpconn.cpp:77` is not a branch of the model. It can only be reached with a `writev` that returned a positive count for an empty request, which the kernel does not do.
- HttpConn.ToWriteBytes: the sum is unbounded. The source adds two `size_t` lengths into an `int`, which could overflow only for a file over 2 GiB.
- HttpRequest.DecodeFrom: it requires at least two characters after every `%` the loop reaches (`EscapesComplete`). The source reads past the end of the body there, which is undefined behaviour.
- HttpRequest.DecodeFrom: its contract states length and key preservation only. The exact body it leaves is stated by `HttpRequestLemmas.DecodedBodyIsRewrite`, and the stored pairs by `HttpRequestLemmas.DecodeEncodedPairs`.
- HttpRequestLemmas.DecodeEncodedPairs: it covers bodies without `+` and `%`. Escaped bodies are covered for the rewrite (`DecodeFormBody`) and by one worked example (`FormExampleEscape`), not by a general statement about the stored pairs.
- Characters stand for octets. `std::regex` is taken in its ECMAScript grammar, where `.` matches neither CR nor LF.

# A verified model of a C++ epoll web server

This project models the core of a small C++ HTTP/1.1 static-file server in Dafny. The server has three parts:

- a reactor built on epoll;
- a min-heap of per-connection timeouts;
- per-connection read and write buffers.

Each connection:

- reads a request into a growable byte buffer;
- parses it with a three-state line machine (request line, headers, body);
- decodes an urlencoded login or register form against a user database;
- answers with a status line, headers and either a memory-mapped file or an error page;
- writes that answer out with a two-region vectored write.

The reactor works in rounds. Each round it:

- fires the timers that are due, which close their idle connections;
- accepts new connections up to a limit of 65536 users;
- routes every epoll event to close, read or write;
- after each read or write, re-arms the one-shot registration of that connection, for reading or writing as processing decided.

The modules follow the source files:

- ByteBuffer (buffer.dfy): `Buffer`: a class over the storage vector and its read and write cursors.
- Decimal (decimal.dfy): `std::stoi` and `std::to_string` on the decimal strings the request and response use.
- Timer (heaptimer.dfy): `HeapTimer`: a class with the heap array, the id-to-index map and a log of fired callbacks.
- HttpGrammar (httpgrammar.dfy): the request-line and header patterns, path completion and urlencoded decoding, as functions.
- Request (httprequest.dfy): `HttpRequest`: the parse loop over a buffer, the line states and the form parser.
- Response (httpresponse.dfy): `HttpResponse`: the code decision, error pages, status line, headers and content.
- Connection (httpconn.dfy): `HttpConn`: init/close, the read loop, the iovec write loop and `process()`.
- Server (webserver.dfy): `WebServer`: trigger modes, the constructor, the event loop, admission, timeouts and the read/write/process handlers.
- Wrappers and Faults (wrappers.dfy): `Option`, `Result` and the faults that end the server.

Each imperative part of the source is a Dafny class with the same fields. Each class method is proved against a specification function of the old state. This covers, among others:

- `Buffer.MakeSpace` against `Contents()`;
- `HeapTimer.Add`/`Pop`/`Tick` against `Schedule()`, keeping heap order and the index map;
- `HttpRequest.Parse` against `ParseFrom`;
- `HttpConn.Process` against `Answered`.

The reactor's state consists of:

- the epoll interest list, `armed`, a map from descriptor to event word;
- the connections, `users`;
- the shared `userCount` and `isET`;
- the timer.

`WebServer.Step` is one round of `start()` with the corrected onWrite_ of the first finding below: a write that stalls on EAGAIN keeps its connection waiting for EPOLLOUT instead of closing it. The code as written is modelled beside it (`WebServer.OnWriteAsWritten`) but is not part of `Step`. `Step` takes the round's clock reading and epoll's events as input, and it keeps one invariant, `Inv()`, that ties the interest list, the connections and their timers together.

## Model

| member | source | states |
|---|---|---|
| `ByteBuffer.Zeros` | code/buffer/buffer.cc:6 | the storage a new or cleared buffer holds: exactly n bytes, every one NUL |
| `ByteBuffer.Buffer.Contents` | code/buffer/buffer.cc:20-22 | the bytes from peek() up to beginWrite(): as many as writePos - readPos |
| `ByteBuffer.Buffer.ReadableBytes` | code/buffer/buffer.cc:12-14 | readableBytes() is the number of unread bytes |
| `ByteBuffer.Buffer.WritableBytes` | code/buffer/buffer.cc:8-10 | writableBytes() is what lies between writePos and the end of the storage |
| `ByteBuffer.Buffer.PrependableBytes` | code/buffer/buffer.cc:16-18 | prependableBytes() plus the unread bytes reach exactly to writePos |
| `ByteBuffer.Buffer.constructor` | code/buffer/buffer.cc:6 | a new buffer holds initBufSize NUL bytes, both cursors at 0 and nothing unread |
| `ByteBuffer.Buffer.MakeSpace` | code/buffer/buffer.cc:128-138 | the unread bytes survive and at least len bytes become writable; when the consumed prefix and tail are too small the vector is resized to writePos + len + 1 with NUL padding, otherwise the unread bytes move to the front and the rest of the storage is kept |
| `ByteBuffer.Buffer.EnsureWritable` | code/buffer/buffer.cc:24-28 | nothing changes when len bytes are already writable; otherwise exactly the two makeSpace_ outcomes; afterwards len bytes are writable and the unread bytes are the same |
| `ByteBuffer.Buffer.Retrieve` | code/buffer/buffer.cc:30-33 | the first len unread bytes are dropped and nothing but readPos moves |
| `ByteBuffer.Buffer.RetrieveUntil` | code/buffer/buffer.cc:35-38 | the unread bytes start at the given end position; storage and writePos are untouched |
| `ByteBuffer.Buffer.RetrieveAll` | code/buffer/buffer.cc:40-44 | the whole storage is zero-filled at the same size, both cursors are 0 and nothing is unread |
| `ByteBuffer.Buffer.RetrieveAllToString` | code/buffer/buffer.cc:46-50 | returns exactly the bytes that were unread, and the buffer ends as after retriveAll |
| `ByteBuffer.Buffer.HasWritten` | code/buffer/buffer.cc:115-118 | the len bytes already stored at writePos become unread data, appended to the old unread bytes |
| `ByteBuffer.Buffer.Append` | code/buffer/buffer.cc:60-69 | the unread bytes become the old ones followed by str; the capacity stays, grows to writePos + len + 1, or stays with the data compacted to the front, by the makeSpace_ case |
| `ByteBuffer.Buffer.AppendBuffer` | code/buffer/buffer.cc:76-78 | appends the other buffer's unread bytes, leaving the other buffer unchanged |
| `ByteBuffer.Buffer.ReadFd` | code/buffer/buffer.cc:80-102 | a successful readv returns its length and appends all its bytes whether they fit the tail or spill into the overflow array (capacity then as append decides); a failed one returns -1 with errno and changes nothing |
| `ByteBuffer.Buffer.WriteFd` | code/buffer/buffer.cc:104-113 | a successful write returns the count and drops exactly that many unread bytes; a failed one returns -1 with errno and moves no cursor |
| `ByteBuffer.CursorsPartitionStorage` | code/buffer/buffer.cc:8-18 | prependable, readable and writable bytes add up to the storage size |
| `ByteBuffer.BufferTestSequence` | test/test.cc:156-201 | the unit test's buffer scenario ends with readable/writable/prependable 0/1/29 after the write and 4/26/0 after the second read |
| `Decimal.DigitChar` | code/http/httpresponse.cc:87 | the digit character whose code lies d above '0' |
| `Decimal.NatToString` | code/http/httpresponse.cc:117 | std::to_string of a non-negative number is a non-empty run of digits |
| `Decimal.IntToString` | code/http/httpresponse.cc:87 | std::to_string of an int: the digits of its magnitude, preceded by '-' exactly when it is negative |
| `Decimal.NatToStringValue` | code/http/httpresponse.cc:134 | the digits printed for n have the value n |
| `Decimal.NatToStringNoLeadingZero` | code/http/httpresponse.cc:134 | the printed number starts with '0' exactly when it is zero |
| `Decimal.NatToStringInjective` | code/http/httpresponse.cc:117 | different numbers print differently, so Content-length names exactly one length |
| `Decimal.SkipSpace` | code/http/httprequest.cc:72 | strtol's skip of leading whitespace leaves a suffix that does not start with a blank |
| `Decimal.LeadingDigits` | code/http/httprequest.cc:72 | the longest prefix of digits: a prefix, all digits, followed by a non-digit or the end |
| `Decimal.Stoi` | code/http/httprequest.cc:72 | std::stoi returns only values inside the 32-bit int range, and throws otherwise |
| `Decimal.LeadingDigitsOfDigits` | code/http/httprequest.cc:72 | a run of digits is read in full |
| `Decimal.StoiOfNatToString` | code/http/httprequest.cc:124 | std::stoi reads back what std::to_string prints, for every value up to INT_MAX |
| `Decimal.StoiRejectsNonNumeric` | code/http/httprequest.cc:124 | a Content-Length value starting with neither blank, sign nor digit makes std::stoi throw invalid_argument |
| `Decimal.StoiStopsAtNonDigit` | code/http/httprequest.cc:72 | std::stoi ignores whatever follows the digits ("12abc" reads as 12) |
| `Decimal.LeadingDigitsAppend` | code/http/httprequest.cc:72 | the digits of s followed by a non-digit are exactly s |
| `HttpGrammar.IndexOf` | code/http/httprequest.cc:106-112 | the first index holding c (none exactly when c does not occur), the split point a match of the request-line pattern needs |
| `HttpGrammar.IndexOfIs` | code/http/httprequest.cc:106-112 | any index holding the first occurrence of c is the one found |
| `HttpGrammar.FindCrlf` | code/http/httprequest.cc:59 | std::search for "\r\n" finds an index from which two bytes remain |
| `HttpGrammar.FindCrlfIsFirst` | code/http/httprequest.cc:59-67 | the index found holds the first CRLF of the unread bytes, and nothing is found exactly when there is no CRLF |
| `HttpGrammar.FindCrlfOfLine` | code/http/httprequest.cc:59-67 | a line without CRLF (and not ending in CR) followed by CRLF is found as exactly that line, whatever follows |
| `HttpGrammar.MatchRequestLine` | code/http/httprequest.cc:107-112 | a request line accepted by the scan matches ^([a-zA-Z]+) ([^ ]+) HTTP/([^ ]+)$ with the groups it returns |
| `HttpGrammar.RequestLineSpaces` | code/http/httprequest.cc:107 | in a matching line the first space ends the method and the next space ends the path |
| `HttpGrammar.MatchRequestLineComplete` | code/http/httprequest.cc:107-112 | every line the pattern matches is accepted, with the same three groups |
| `HttpGrammar.MatchRequestLineIff` | code/http/httprequest.cc:107-118 | the scan returns groups (m, p, v) if and only if the line matches the pattern with those groups |
| `HttpGrammar.MatchHeaderLine` | code/http/httprequest.cc:131-134 | a header line accepted by the scan matches ^([^:]*): ?(.*)$ with the name and value it returns |
| `HttpGrammar.MatchHeaderLineComplete` | code/http/httprequest.cc:131-134 | every line the header pattern matches is accepted with the same name and value |
| `HttpGrammar.MatchHeaderLineIff` | code/http/httprequest.cc:131-138 | the scan returns (name, value) if and only if the line matches the header pattern with those groups |
| `HttpGrammar.NormalizePathIdempotent` | code/http/httprequest.cc:147-159 | parsePath_ applied twice equals once, and its result is never "/" nor a bare default page name |
| `HttpGrammar.PostValue` | code/http/httprequest.cc:86-92 | getPost returns the stored value of a posted key and "" for any other key |
| `HttpGrammar.SignedChar` | code/http/httprequest.cc:290 | a char promoted to int is the byte read as a signed 8-bit value |
| `HttpGrammar.HexDigit` | code/http/httprequest.cc:287-291 | the upper-case hexadecimal digit of a value below 16 |
| `HttpGrammar.ConverHexDigit` | code/http/httprequest.cc:287-291 | ConverHex reads every hexadecimal digit back as its value, the lower-case letters as well as the upper-case ones |
| `HttpGrammar.EscapedByte` | code/http/httprequest.cc:192-193 | static_cast<char> of the "%XY" value is a byte |
| `HttpGrammar.EncodeByte` | code/http/httprequest.cc:189-198 | a browser's encoding of one byte never holds '=' or '&' |
| `HttpGrammar.PercentEncode` | code/http/httprequest.cc:189-198 | the form encoding of a byte string never holds '=' or '&' |
| `HttpGrammar.DecodeEncodeByte` | code/http/httprequest.cc:189-198 | the decoding loop turns an encoded byte back into the byte and continues with what follows |
| `HttpGrammar.DecodeEncode` | code/http/httprequest.cc:188-199 | decoding undoes encoding and stops exactly at the end of the encoded prefix |
| `HttpGrammar.DecodePercentEncode` | code/http/httprequest.cc:188-200 | decoding an encoded byte string gives exactly the string |
| `HttpGrammar.ScanPlain` | code/http/httprequest.cc:205-221 | text without '=' and '&' only extends the current segment of the splitting loop |
| `HttpGrammar.ScanField` | code/http/httprequest.cc:205-211 | scanning key=value makes the key current and the value the open segment |
| `HttpGrammar.ScanJoinForm` | code/http/httprequest.cc:201-226 | splitting fields joined by '&' stores every field in order, a later write winning |
| `HttpGrammar.DecodeSeparator` | code/http/httprequest.cc:196-198 | '=' and '&' are decoded as themselves |
| `HttpGrammar.DecodeField` | code/http/httprequest.cc:188-199 | an encoded field followed by an encoded tail decodes to the plain field and tail |
| `HttpGrammar.DecodeEncodeForm` | code/http/httprequest.cc:188-200 | decoding the body a browser posts gives the fields joined by '=' and '&' |
| `HttpGrammar.UrlencodedRoundTrip` | code/http/httprequest.cc:184-227 | parseFromUrlencoded_ on a browser-encoded form stores exactly the posted fields, when no key or value holds a separator and the last field has a fresh key and a non-empty value |
| `HttpGrammar.EscapedSeparatorDecodes` | code/http/httprequest.cc:191-195 | "%26" decodes to a literal '&' |
| `HttpGrammar.TrailingPartDropped` | code/http/httprequest.cc:223-226 | in "a=x&y" the trailing key-less part is dropped because its key is already stored |
| `HttpGrammar.EscapedSeparatorSplits` | code/http/httprequest.cc:184-227 | the body is decoded before it is split, so an escaped '&' inside a value splits it: "a=x%26y" stores only a=x |
| `HttpGrammar.IsRequestLineOf` | code/http/httprequest.cc:107 | the request-line pattern ^([a-zA-Z]+) ([^ ]+) HTTP/([^ ]+)$ with its three groups: a non-empty run of letters, a non-empty path without a space, a non-empty version without a space |
| `HttpGrammar.IsHeaderLineOf` | code/http/httprequest.cc:131 | the header pattern ^([^:]*): ?(.*)$ with its two groups: a name without ':', then ':' and at most one space, taken greedily, then a value without a line break |
| `HttpGrammar.NormalizePath` | code/http/httprequest.cc:147-159 | parsePath_: "/" becomes "/index.html", one of the six DEFAULT_HTML page names gains ".html", any other path stays as it is |
| `HttpGrammar.KeepAlive` | code/http/httprequest.cc:99-104 | isKeepAlive: true exactly when a Connection header is present, its value is "keep-alive" and the version is "1.1" |
| `HttpGrammar.ConverHex` | code/http/httprequest.cc:287-291 | ConverHex: 'A'-'F' and 'a'-'f' count from 10; any other char, digit or not, is its signed byte value minus '0' |
| `HttpGrammar.Decoded` | code/http/httprequest.cc:185-200 | the decode loop of parseFromUrlencoded_: '+' becomes a space, "%XY" the byte ConverHex(X)*16+ConverHex(Y), a '%' second to last reads the string's terminating NUL as Y, and a '%' last reads past the end, which is a fault |
| `HttpGrammar.Scan` | code/http/httprequest.cc:201-226 | the split loop of parseFromUrlencoded_: '=' takes the text since the last separator as the key, '&' stores that text under the current key, a later write winning; at the end a non-empty tail is stored only when its key is not stored yet |
| `HttpGrammar.Urlencoded` | code/http/httprequest.cc:184-227 | parseFromUrlencoded_: an empty body changes nothing; otherwise the body is decoded and then split into post, or the decode fault is returned |
| `Request.UserVerify` | code/http/httprequest.cc:232-233 | a login or registration succeeds exactly when neither name nor password is empty and the user table accepts them |
| `Request.ToSizeT` | code/http/httprequest.cc:72 | the int from std::stoi stored in a size_t: unchanged when non-negative, wrapped modulo 2^64 (so above INT_MAX) when negative |
| `Request.LineOf` | code/http/httprequest.cc:56-83 | a LINE_OK line, together with its CRLF outside the body, fits inside the readable bytes |
| `Request.LineOfMeaning` | code/http/httprequest.cc:56-83 | getLine is LINE_OPEN exactly when no CRLF is there, otherwise the text before the first CRLF; in the body LINE_ERROR without Content-Length, the std::stoi fault, LINE_OPEN below Content-Length bytes, else exactly those bytes; only LINE_OK carries text |
| `Request.RequestLineAccepted` | code/http/httprequest.cc:106-120 | a matching request line stores method, normalised path and version, moves to HEADERS and answers NO_REQUEST |
| `Request.RequestLineRejected` | code/http/httprequest.cc:115-118 | a request line the pattern does not match is BAD_REQUEST and changes nothing |
| `Request.HeaderAccepted` | code/http/httprequest.cc:131-134 | a matching header line stores its value under its name, a later line with the same name winning |
| `Request.HeaderRejected` | code/http/httprequest.cc:135-138 | a non-blank line the header pattern rejects is BAD_REQUEST and changes nothing |
| `Request.Touch` | code/http/httprequest.cc:164 | operator[] inserts a missing key with an empty value and keeps every other entry |
| `Request.PostStepKeeps` | code/http/httprequest.cc:163-181 | a request that is not a POST, or a POST whose Content-Type header is present and is not urlencoded, leaves every field as it was. A POST without Content-Type is not covered: operator[] adds an empty Content-Type entry to it |
| `Request.PostForm` | code/http/httprequest.cc:163-181 | a browser's form posted to /register.html or /login.html stores the fields (plus empty username/password entries if absent) and goes to /welcome.html when UserVerify accepts, /error.html otherwise |
| `Request.ParseLoop` | code/http/httprequest.cc:26-53 | the loop consumes no more than the readable bytes, returns only NO_REQUEST, GET_REQUEST or BAD_REQUEST, and NO_REQUEST only once getLine is not LINE_OK |
| `Request.AfterLine` | code/http/httprequest.cc:27-50 | one pass after a complete line keeps the same bounds on what is consumed and on the code returned |
| `Request.ParseFrom` | code/http/httprequest.cc:23-54 | parse consumes at most the readable bytes and answers NO_REQUEST, GET_REQUEST or BAD_REQUEST; NO_REQUEST means the last getLine was not LINE_OK |
| `Request.ParseFromFault` | code/http/httprequest.cc:72 | a std::stoi exception inside getLine escapes parse |
| `Request.ParseFromWaits` | code/http/httprequest.cc:26-53 | a getLine that is not LINE_OK ends parse with NO_REQUEST, consuming nothing more |
| `Request.ParseFromLine` | code/http/httprequest.cc:26-27 | a LINE_OK line is handed to the current state's branch |
| `Request.ParseFromRequestLine` | code/http/httprequest.cc:28-34 | the request-line branch retrieves the line and its CRLF, returns BAD_REQUEST at once, else loops |
| `Request.ParseFromHeader` | code/http/httprequest.cc:35-42 | the header branch retrieves the line and its CRLF and returns on any code but NO_REQUEST (or on the std::stoi fault) |
| `Request.ParseFromBody` | code/http/httprequest.cc:43-47 | the body branch retrieves Content-Length bytes and returns GET_REQUEST, or the fault |
| `Request.NoLineBreakNoCrlf` | code/http/httprequest.cc:59 | text without CR or LF holds no CRLF and does not end in CR |
| `Request.LineOfText` | code/http/httprequest.cc:59-67 | outside the body, a line without line breaks followed by CRLF is read as exactly that line |
| `Request.HeaderLineRead` | code/http/httprequest.cc:122-140 | a header line written "name: value" followed by CRLF is read whole and stored |
| `Request.BlankLineRead` | code/http/httprequest.cc:123-126 | the blank line ends the headers with GET_REQUEST when there is no Content-Length |
| `Request.HeaderLinePass` | code/http/httprequest.cc:35-42 | one pass over a written header line stores it and continues after its CRLF |
| `Request.BlankLinePass` | code/http/httprequest.cc:35-42 | one pass over the blank line without Content-Length answers GET_REQUEST after consuming its two bytes |
| `Request.ParseHeaderText` | code/http/httprequest.cc:26-42 | a header block and its blank line are parsed to GET_REQUEST, every header stored and exactly the block consumed |
| `Request.RequestLineText` | code/http/httprequest.cc:107 | a request line written from a method, path and version has no line break and matches with those groups |
| `Request.MatchedLinePass` | code/http/httprequest.cc:28-34 | from a fresh request, a matching line stores its groups and parsing continues after its CRLF |
| `Request.RequestLinePass` | code/http/httprequest.cc:28-34 | the same for a request line written from its three parts |
| `Request.ParseRequestText` | code/http/httprequest.cc:23-54 | a bodiless request a client writes is parsed back to GET_REQUEST, consuming exactly its bytes, storing its method, normalised path, version and headers, whatever follows it |
| `Request.ParseIncomplete` | code/http/httprequest.cc:58-63 | without a CRLF outside the body nothing is consumed and NO_REQUEST waits for more input |
| `Request.LineOfBody` | code/http/httprequest.cc:69-80 | in the body, below Content-Length bytes getLine is LINE_OPEN, otherwise it is exactly the first Content-Length bytes |
| `Request.ParseBodyBytes` | code/http/httprequest.cc:43-47 | in the body, too few bytes wait with nothing consumed; otherwise exactly Content-Length bytes become the body handed to parsePost_ and parse answers GET_REQUEST |
| `Request.HttpRequest.constructor` | code/http/httprequest.cc:12-21 | a new request is in the fresh state init() sets |
| `Request.HttpRequest.Init` | code/http/httprequest.cc:12-21 | init() resets to REQUEST_LINE / LINE_OK with every string and map empty |
| `Request.HttpRequest.GetLine` | code/http/httprequest.cc:56-83 | getLine returns what LineOf says of the unread bytes and records the line state, consuming nothing |
| `Request.HttpRequest.ParsePath` | code/http/httprequest.cc:147-159 | parsePath_ replaces the path by its normalisation and touches nothing else |
| `Request.HttpRequest.ParseRequestLine` | code/http/httprequest.cc:106-120 | parseRequestLine_ changes the fields and answers as RequestLineStep says (see RequestLineAccepted and RequestLineRejected) |
| `Request.HttpRequest.ParseHeader` | code/http/httprequest.cc:122-140 | parseHeader_ changes the fields and answers as HeaderStep says, or returns the std::stoi fault |
| `Request.HttpRequest.ParseFromUrlencoded` | code/http/httprequest.cc:184-227 | the two loops of parseFromUrlencoded_ leave body and post as Urlencoded says (see UrlencodedRoundTrip), or report the read past the end with nothing changed |
| `Request.HttpRequest.DecodeBody` | code/http/httprequest.cc:187-200 | the first loop replaces the body by its decoding, or reports the fault and changes nothing |
| `Request.HttpRequest.SplitBody` | code/http/httprequest.cc:201-226 | the second loop stores the fields as Scan says (see ScanJoinForm) and changes nothing else |
| `Request.HttpRequest.ParsePost` | code/http/httprequest.cc:163-181 | parsePost_ answers GET_REQUEST with the fields PostStep gives (see PostForm and PostStepKeeps), or the fault |
| `Request.HttpRequest.ParseBody` | code/http/httprequest.cc:142-145 | parseBody_ stores the body, runs parsePost_ and answers GET_REQUEST, or the fault |
| `Request.HttpRequest.Dispatch` | code/http/httprequest.cc:27-50 | the switch of parse retrieves the bytes the pass consumes and either loops or returns what ParseFrom returns; only the read cursor moves |
| `Request.HttpRequest.Pass` | code/http/httprequest.cc:26-51 | one round of the loop keeps the whole parse equal to its target and moves only the read cursor |
| `Request.HttpRequest.Parse` | code/http/httprequest.cc:23-54 | parse returns ParseFrom's code, leaves the request in ParseFrom's state and the buffer with exactly the consumed bytes retrieved, or returns the fault |
| `Request.HttpRequest.GetPost` | code/http/httprequest.cc:86-92 | getPost is the stored value or "" |
| `Request.RequestLineStep` | code/http/httprequest.cc:106-120 | parseRequestLine_: a line the pattern accepts stores the method, the normalised path and the version, moves to HEADERS and answers NO_REQUEST; any other line answers BAD_REQUEST and changes nothing |
| `Request.HeaderStep` | code/http/httprequest.cc:122-140 | parseHeader_: a blank line answers GET_REQUEST when Content-Length is absent or reads as 0, fails with std::stoi's fault when it does not read as a number, and otherwise moves to BODY; a line the pattern accepts stores its value under its name; any other line answers BAD_REQUEST and changes nothing |
| `Request.PostStep` | code/http/httprequest.cc:163-181 | parsePost_: a request that is not a POST is unchanged; a POST gains an empty Content-Type entry if it had none; a urlencoded POST has its body decoded and split into post, and one to /register.html or /login.html then goes to /welcome.html or /error.html as UserVerify decides on the posted username and password, both inserted empty if missing |
| `Request.BodyStep` | code/http/httprequest.cc:142-145 | parseBody_: the line becomes the body and parsePost_ runs on the request |
| `Request.HttpRequest.IsKeepAlive` | code/http/httprequest.cc:99-104 | isKeepAlive of the request's current header map and version |
| `Response.LastIndexOf` | code/http/httpresponse.cc:140 | find_last_of: the last index holding c, and none exactly when c does not occur |
| `Response.ResponseStatus` | code/http/httpresponse.cc:63-88 | a missing path or a directory gives 404, a file others cannot read 403, otherwise -1 becomes 200 and any other code stays; a code without a reason phrase ends as 400; 400, 403 and 404 switch to their error page and re-stat it; keep-alive and srcDir are kept |
| `Response.NumberReadsBack` | code/http/httpresponse.cc:117 | the digits to_string prints are read back as the number by a scan that stops at the next byte |
| `Response.StatusLineReadsBack` | code/http/httpresponse.cc:84-88 | a status line starts with "HTTP/1.1 " and the number after it reads back as its code, whatever follows |
| `Response.ResponseStatusLine` | code/http/httpresponse.cc:63-75 | every response starts with "HTTP/1.1 " followed by its final code |
| `Response.HeadReadsBack` | code/http/httpresponse.cc:84-99 | the head of a decided response reads back its code, whatever follows |
| `Response.LengthReadsBack` | code/http/httpresponse.cc:117 | a Content-length line reads back as its number and ends with the blank line |
| `Response.ErrorContentReadsBack` | code/http/httpresponse.cc:120-136 | errorContent announces exactly the length of the error page, and the page is the last thing it writes |
| `Response.LengthPrefixed` | code/http/httpresponse.cc:134-135 | a text announced by its own length reads that length back and ends with the text |
| `Response.ContentOutcome` | code/http/httpresponse.cc:101-118 | addContent_ maps the file exactly when it opens, maps and is not empty, and then announces its length; otherwise it appends the error page naming the step that failed |
| `Response.ResponseMapsFile` | code/http/httpresponse.cc:63-75 | from no mapping, a response maps the file of its final path exactly when that file opens, maps and is not empty |
| `Response.ResponseAnnouncesFile` | code/http/httpresponse.cc:110-117 | a mapped file is announced by a Content-length equal to its size (what fileLen() reports) and the response ends there |
| `Response.ResponseEndsWithErrorPage` | code/http/httpresponse.cc:101-114 | a response that maps nothing ends with the error page for its final code, "File NotFound!" when open failed and "File NotFound" when mmap failed |
| `Response.HeadParts` | code/http/httpresponse.cc:84-99 | the head is the status line, "Connection: keep-alive" with the keep-alive parameters exactly for keep-alive and "Connection: close" otherwise, then the path's Content-type |
| `Response.SuffixShape` | code/http/httpresponse.cc:5-25 | every registered suffix is a '.' followed by no other '.' |
| `Response.FileTypeOfSuffix` | code/http/httpresponse.cc:139-148 | a name ending in a registered suffix gets that suffix's type |
| `Response.FileTypeCases` | code/http/httpresponse.cc:139-148 | a path without a '.' is text/plain, and every type served is registered or text/plain |
| `Response.EmptyFileAnswersWithErrorPage` | code/http/httpresponse.cc:63-118 | an empty readable file asked for with 200 keeps status 200 but, since mmap of zero bytes fails, sends the "File NotFound" error page |
| `Response.HttpResponse.constructor` | code/http/httpresponse.cc:40-46 | a new response has code -1, no keep-alive, empty path and directory, no mapping and a zero stat |
| `Response.HttpResponse.Init` | code/http/httpresponse.cc:52-61 | init drops any mapping and takes the new parameters with a zero stat |
| `Response.HttpResponse.UnmapFile` | code/http/httpresponse.cc:151-156 | unmapFile releases the mapping and changes nothing else |
| `Response.HttpResponse.MakeResponse` | code/http/httpresponse.cc:63-75 | makeResponse leaves the state RespondState gives and appends exactly RespondText (see ResponseStatus, ResponseStatusLine, HeadParts and the content lemmas) |
| `Response.HttpResponse.DecideCode` | code/http/httpresponse.cc:64-70 | the stat-based code decision, as ResponseStatus states it |
| `Response.HttpResponse.ErrorHtml` | code/http/httpresponse.cc:77-82 | errorHtml_ switches 400, 403 and 404 to their page and re-stats it, and changes nothing otherwise |
| `Response.HttpResponse.AddStateLine` | code/http/httpresponse.cc:84-88 | a code without a reason phrase becomes 400, and the status line of the final code is appended |
| `Response.HttpResponse.AddHeader` | code/http/httpresponse.cc:90-99 | appends the Connection part for the keep-alive flag and the Content-type part for the path |
| `Response.HttpResponse.AddContent` | code/http/httpresponse.cc:101-118 | appends the content ContentOutcome describes and records the mapping |
| `Response.HttpResponse.ErrorContent` | code/http/httpresponse.cc:120-136 | appends the Content-length line and the error page for the current code and message |
| `Response.IntendedKeepsErrorCode` | code/http/httpresponse.cc:63-70 | under the intended decision an error code passed to init() is the code answered, with its own error page, and every other code is decided exactly as makeResponse does |
| `Response.StatOr` | code/http/httpresponse.cc:64 | the stat record a successful stat stores; a failed stat leaves the previous record |
| `Response.Decide` | code/http/httpresponse.cc:64-70 | the decision in makeResponse: 404 when srcDir+path fails to stat or is a directory, else 403 when others may not read it, else -1 becomes 200 and any other code stands; the stat is recorded |
| `Response.ErrorPage` | code/http/httpresponse.cc:77-82 | errorHtml_: a code with an error page (400, 403, 404) switches the path to that page and stats it; any other code changes nothing |
| `Response.KnownCode` | code/http/httpresponse.cc:85 | addStateLine_'s fallback: a code without a reason phrase becomes 400 |
| `Response.StatusLine` | code/http/httpresponse.cc:86-87 | "HTTP/1.1 ", the code in decimal, a space, its reason phrase and CRLF |
| `Response.ConnectionText` | code/http/httpresponse.cc:91-97 | "Connection: keep-alive" followed by the keep-alive max=6, timeout=120 line for a keep-alive response, "Connection: close" otherwise |
| `Response.ContentTypeText` | code/http/httpresponse.cc:98 | the Content-type header with the path's file type |
| `Response.FileType` | code/http/httpresponse.cc:139-148 | getFileType_: the type SUFFIX_TYPE registers for the suffix from the last '.', and "text/plain" when there is no '.' or the suffix is not registered |
| `Response.ErrorStatus` | code/http/httpresponse.cc:125-129 | the reason errorContent prints: the code's reason phrase, "Bad Request" for a code without one |
| `Response.ErrorBody` | code/http/httpresponse.cc:121-132 | the HTML error page: title, the code and its reason, the message, the TinyWebServer footer |
| `Response.LengthText` | code/http/httpresponse.cc:117 | a Content-length header with the length in decimal, then the blank line that ends the headers |
| `Response.ErrorContentText` | code/http/httpresponse.cc:134-135 | errorContent's output: the page's length line, then the page |
| `Response.Maps` | code/http/httpresponse.cc:102-114 | addContent_ maps the file exactly when open succeeds and mmap succeeds, an mmap of length 0 counting as failed |
| `Response.ContentState` | code/http/httpresponse.cc:101-118 | addContent_ changes one field: a mapped file is recorded in mmFile_; when open or mmap fails nothing changes |
| `Response.ContentText` | code/http/httpresponse.cc:101-118 | what addContent_ appends: the error page with "File NotFound!" when open fails, the one with "File NotFound" when mmap fails, and only the Content-length line of the file when it is mapped |
| `Response.Headed` | code/http/httpresponse.cc:63-85 | the fields once the status line is written: the decision, then the error page, then the unknown-code fallback |
| `Response.DecideIntended` | code/http/httpresponse.cc:63-70 | the decision as the second finding intends it: a code with an error page passed to init() stands, and any other code is decided as makeResponse does |
| `Response.HeadedIntended` | code/http/httpresponse.cc:63-85 | Headed with the intended decision: error page and unknown-code fallback as the code does them |
| `Response.HeadText` | code/http/httpresponse.cc:84-99 | the status line, the Connection header(s) and the Content-type header of a decided response |
| `Response.RespondState` | code/http/httpresponse.cc:63-75 | the fields makeResponse leaves: those Headed gives, plus the mapped file addContent_ records |
| `Response.RespondText` | code/http/httpresponse.cc:63-75 | the bytes makeResponse appends to the buffer: status line, headers, then content |
| `Response.HttpResponse.File` | code/http/httpresponse.cc:158-160 | file(): the mapped file, None for nullptr |
| `Response.HttpResponse.FileLen` | code/http/httpresponse.cc:162-164 | fileLen(): st_size of the last stat recorded |
| `Response.HttpResponse.GetFileType` | code/http/httpresponse.cc:139-148 | getFileType_ of the response's current path |
| `Timer.Parent` | code/timer/heaptimer.cc:9 | (i - 1) >> 1 is a smaller slot whose children are 2p + 1 and 2p + 2, one of them i |
| `Timer.Swapped` | code/timer/heaptimer.cc:22 | std::swap of two slots keeps the heap's length |
| `Timer.RootIsEarliest` | code/timer/heaptimer.cc:102-104 | the root of a heap expires no later than any other node, so tick() only has to look at the front |
| `Timer.SiftUpStep` | code/timer/heaptimer.cc:8-15 | one swap of shiftup_ moves the only misplaced pair one level up |
| `Timer.SiftDownStep` | code/timer/heaptimer.cc:32-38 | one swap of shiftdown_ with the earlier child moves the only misplaced pairs one level down and orders the moved node |
| `Timer.RescheduleReady` | code/timer/heaptimer.cc:44-45 | changing one node's expiry in a heap leaves a state from which shiftdown_ can start |
| `Timer.RemoveReady` | code/timer/heaptimer.cc:70-75 | moving the last node into slot k and dropping the last slot leaves a state from which shiftdown_ can start |
| `Timer.EarliestChild` | code/timer/heaptimer.cc:33 | the child picked (the right one only when strictly earlier) is a child of i no later than any other child |
| `Timer.StopDown` | code/timer/heaptimer.cc:34 | when shiftdown_ stops, shiftup_ can start at that slot, and the whole vector is a heap once the slot is ordered against its parent |
| `Timer.ShiftedUp` | code/timer/heaptimer.cc:6-16 | shiftup_ keeps the number of nodes |
| `Timer.ShiftedUpSwap` | code/timer/heaptimer.cc:10-14 | a node strictly earlier than its parent is swapped and shiftup_ goes on from the parent |
| `Timer.ShiftedUpOrders` | code/timer/heaptimer.cc:6-16 | shiftup_ from a slot that may only be earlier than its parent ends in a heap |
| `Timer.ShiftedDown` | code/timer/heaptimer.cc:27-40 | shiftdown_ keeps the size, moves the node at i to a slot at or below i, changes nothing when it stays, and stays when i has no child |
| `Timer.ShiftedDownSwap` | code/timer/heaptimer.cc:33-37 | a node later than the child picked is swapped and shiftdown_ goes on from that child |
| `Timer.ShiftedDownOrders` | code/timer/heaptimer.cc:27-49 | a shiftdown_ that moves the node ends in a heap; one that does not leaves shiftup_'s start state, which is why adjust falls back to shiftup_ |
| `Timer.HeapTimer.Schedule` | code/timer/heaptimer.cc:18-25 | the scheduled ids are exactly the keys of ref_ |
| `Timer.HeapTimer.constructor` | code/timer/heaptimer.h:46 | a new timer has no nodes, no index entries and has fired nothing |
| `Timer.HeapTimer.SwapNode` | code/timer/heaptimer.cc:18-25 | swapNode_ exchanges two slots, re-points both ids in ref_ and leaves the schedule unchanged |
| `Timer.HeapTimer.ShiftUp` | code/timer/heaptimer.cc:6-16 | shiftup_ leaves the vector ShiftedUp describes and the schedule unchanged |
| `Timer.HeapTimer.ShiftDown` | code/timer/heaptimer.cc:27-40 | shiftdown_ leaves the vector ShiftedDown describes, keeps the schedule, and returns whether the node left its slot |
| `Timer.HeapTimer.Adjust` | code/timer/heaptimer.cc:42-49 | adjust reschedules exactly the node of id to now + timeoutMs and keeps a heap a heap |
| `Timer.HeapTimer.Add` | code/timer/heaptimer.cc:51-65 | add schedules id at now + timeoutMs with the new callback, pushing a new node or updating the known one, and keeps a heap a heap |
| `Timer.HeapTimer.Del` | code/timer/heaptimer.cc:68-77 | del_ unschedules exactly the node at index and leaves the vector Deleted describes (see DeletedOrders) |
| `Timer.HeapTimer.DoWork` | code/timer/heaptimer.cc:79-87 | doWork runs the callback of a known id once and unschedules it; an unknown id changes nothing |
| `Timer.HeapTimer.Pop` | code/timer/heaptimer.cc:89-92 | pop unschedules the root and keeps a heap a heap |
| `Timer.HeapTimer.Clear` | code/timer/heaptimer.cc:94-97 | clear leaves no node and no index entry |
| `Timer.HeapTimer.Tick` | code/timer/heaptimer.cc:99-110 | tick fires and removes exactly the nodes it fires, all due by now; on a heap it fires them earliest first, every due node fires and no node left is due |
| `Timer.HeapTimer.GetNextTickMs` | code/timer/heaptimer.cc:112-120 | after the tick, -1 exactly when no timer is left, otherwise the non-negative milliseconds until the root is due |
| `Timer.RemainingAfterRoot` | code/timer/heaptimer.cc:89-92 | after the root of a heap is removed, every remaining node expires no earlier than it, so fired nodes come out in order |
| `Timer.FiredAreDue` | code/timer/heaptimer.cc:104-107 | every node a tick fires was scheduled and due by now |
| `Timer.FireRoot` | code/timer/heaptimer.cc:102-108 | firing a due root extends the record of fired nodes consistently |
| `Timer.Deleted` | code/timer/heaptimer.cc:68-77 | del_ removes one slot; when the hole has no child the last node simply moves into it |
| `Timer.DeletedOrders` | code/timer/heaptimer.cc:68-77 | del_ on a heap keeps the order everywhere except between the hole and its parent, and fully when the root is deleted |
| `Timer.TickStep` | code/timer/heaptimer.cc:101-109 | one round of tick's loop keeps the tick's state invariant |
| `Timer.TickDone` | code/timer/heaptimer.cc:104-106 | when tick stops on a heap, no node left is due and every node that was due has fired |
| `Timer.ScheduleOf` | code/timer/heaptimer.cc:18-25 | the schedule of a consistent heap and index has exactly the ids of the index |
| `Timer.SwapKeepsSchedule` | code/timer/heaptimer.cc:18-25 | swapping two slots and re-pointing both ids keeps ref_ consistent and the schedule unchanged |
| `Timer.UpdateSchedule` | code/timer/heaptimer.cc:45 | rewriting one node under the same id replaces exactly that id's schedule entry |
| `Timer.PushSchedule` | code/timer/heaptimer.cc:55-57 | push_back of a node with a fresh id and ref_ pointing at the new slot adds exactly that node |
| `Timer.PopSchedule` | code/timer/heaptimer.cc:71-73 | pop_back together with erasing the last id removes exactly that node |
| `Timer.PopOrdered` | code/timer/heaptimer.cc:73 | dropping the last slot of a heap keeps it a heap |
| `Timer.PushReady` | code/timer/heaptimer.cc:57-58 | a node appended to a heap has no child, so shiftup_ can start from it |
| `Timer.IdsAppend` | code/timer/heaptimer.cc:107-108 | the ids fired grow by the id of each node fired |
| `Timer.TwoTimers` | test/test.cc:89-91 | the first test's two timers: ids 1 and 2 due at 100 and 50, in a heap |
| `Timer.TwoTimersScenario` | test/test.cc:86-102 | at 75 only timer 2 has fired and the next tick is 25 ms away; at 150 timer 1 has fired too, getNextTickMs is -1 and the heap is empty |
| `Timer.FourTimers` | test/test.cc:105-109 | the second test's four timers, due at 300, 100, 200 and 50, in a heap |
| `Timer.AddTwoMore` | test/test.cc:108-109 | timers 3 and 4 join timers 1 and 2 |
| `Timer.AddFourth` | test/test.cc:109 | timer 4 joins timers 1, 2 and 3 |
| `Timer.FourTimersScenario` | test/test.cc:103-122 | a tick at 0 keeps all four; after timer 2 is moved to 310 a tick at 110 fires timer 4 only; a tick at 330 fires the other three earliest first and leaves the heap empty |
| `Timer.FirstTick` | test/test.cc:110-111 | the tick at 0 fires nothing and leaves four timers |
| `Timer.SecondTick` | test/test.cc:114-116 | adjust(2, 200) at 110 and the tick at 110 fire timer 4 only |
| `Timer.PushBack` | test/test.cc:114 | adjust(2, 200) at 110 reschedules timer 2 to 310 and nothing else |
| `Timer.ThirdTick` | test/test.cc:118-121 | the tick at 330 fires the remaining three, earliest first, and empties the heap |
| `Timer.NoneDue` | code/timer/heaptimer.cc:104-106 | a tick before every node's expiry fires nothing |
| `Timer.AllDue` | code/timer/heaptimer.cc:101-109 | a tick when every node is due fires them all and leaves none |
| `Timer.HeapHoldsScheduled` | code/timer/heaptimer.cc:18-25 | every node in the vector is scheduled under its own id |
| `Timer.OnlyDue` | code/timer/heaptimer.cc:101-109 | a tick when exactly one node is due fires that node only and keeps the others |
| `Timer.InteriorDeleteBreaksOrder` | code/timer/heaptimer.cc:68-77 | del_ never sifts up: deleting slot 3 of a seven-node heap moves a node earlier than its new parent into the hole |
| `Connection.Region` | code/http/httpconn.cc:112-119 | an iovec covers exactly iov_len bytes of the memory it points into |
| `Connection.Offered` | code/http/httpconn.cc:71 | writev offers the header region and, when iovCnt_ is 2, the file region: as many bytes as the lengths it uses |
| `Connection.AdvanceDropsSent` | code/http/httpconn.cc:76-88 | after writev took n bytes, the iovecs offer exactly the bytes not yet sent, in order, and toWriteBytes drops by n, whether n stays inside the header region or reaches into the file |
| `Connection.AdvanceTwice` | code/http/httpconn.cc:70-89 | two rounds of the write loop send what one round of their total would |
| `Connection.ReadCall` | code/buffer/buffer.cc:89 | one readv returns the first bytes the socket holds, as many as fit, or what the drained socket reports |
| `Connection.BadLineAnswered404` | code/http/httpconn.cc:104-110 | a request line the pattern rejects parses to BAD_REQUEST with the path still "", process() prepares 400, and makeResponse turns it into 404 because it stats the resource directory itself |
| `Connection.RequestLineLength` | code/http/httprequest.cc:107 | a request line has at least ten bytes |
| `Connection.BadLineRejected` | code/http/httprequest.cc:107 | "BAD LINE" matches no request line |
| `Connection.NotFoundLine` | code/http/httpresponse.cc:84-88 | the status line for 404 is "HTTP/1.1 404 Not Found\r\n" |
| `Connection.BadLineExample` | code/http/httpconn.cc:93-110 | "BAD LINE\r\n\r\n" with an existing resource directory gets the status line of 404, not 400 |
| `Connection.BadLineIntended400` | code/http/httpconn.cc:104-105 | under the intended decision the same input "BAD LINE\r\n\r\n" gets the status line "HTTP/1.1 400 Bad Request\r\n" and the 400 page, whatever the resource directory is |
| `Connection.BadRequestLine` | code/http/httpresponse.cc:84-88 | the status line for 400 is "HTTP/1.1 400 Bad Request\r\n" |
| `Connection.ConnStatics.constructor` | code/http/httpconn.cc:5-7 | the shared isET, srcDir and userCount start as set and with no user counted |
| `Connection.HttpConn.constructor` | code/http/httpconn.cc:9-13 | a new connection has no descriptor, is closed, has empty buffers, a fresh request and an initial response |
| `Connection.HttpConn.Init` | code/http/httpconn.cc:20-29 | init takes the socket, counts one user more, empties both buffers and opens the connection |
| `Connection.HttpConn.Close` | code/http/httpconn.cc:31-39 | close always releases the mapping; only an open connection is closed and uncounted, so a second close changes nothing more |
| `Connection.HttpConn.ToWriteBytes` | code/http/httpconn.cc:126-128 | toWriteBytes is the sum of both iovec lengths, whether or not iov_[1] is in use |
| `Connection.HttpConn.ReadOnce` | code/http/httpconn.cc:62 | one readFd appends the bytes that fit in the tail and the overflow array, or reports what the drained socket reports, and returns what is left unread |
| `Connection.HttpConn.Read` | code/http/httpconn.cc:59-66 | edge-triggered, every byte the socket holds ends up in readBuff_ in order and the result is what the drained socket reports (0 or -1 with errno); level-triggered one readv takes as much as fits |
| `Connection.HttpConn.PointIov` | code/http/httpconn.cc:111-121 | iov_[0] covers the unread bytes of writeBuff_, and iov_[1] the mapped file exactly when one is mapped with a non-zero length |
| `Connection.HttpConn.Respond` | code/http/httpconn.cc:110-123 | makeResponse appends its text to writeBuff_ and the iovecs point at it and at the file |
| `Connection.HttpConn.Prepare` | code/http/httpconn.cc:97-109 | GET_REQUEST prepares 200 with the request's keep-alive flag, BAD_REQUEST 400 without keep-alive, anything else leaves the response as it was |
| `Connection.HttpConn.Process` | code/http/httpconn.cc:93-124 | process() starts from a fresh request; it is false with nothing sent when nothing is buffered or the request is incomplete, true with the response for the parsed request appended and pointed at otherwise, and it fails exactly when the parse does |
| `Connection.HttpConn.Consume` | code/http/httpconn.cc:76-88 | the bookkeeping after writev took n bytes drops exactly those bytes from what is offered and lowers toWriteBytes by n |
| `Connection.HttpConn.WriteOnce` | code/http/httpconn.cc:71-88 | one writev sends nothing and returns 0 when nothing is offered, -1 with errno on a full socket, and otherwise as many bytes as fit, in order |
| `Connection.HttpConn.Write` | code/http/httpconn.cc:68-91 | the peer gets the first bytes offered, in order; the loop ends with 0 when all is sent, -1 with errno when the socket is full, or (level-triggered only) with some but at most 10240 bytes left |
| `Connection.Advance` | code/http/httpconn.cc:76-87 | how write() moves the iovecs after writev took n bytes: past the header into the file when n exceeds the header length, the header emptied; otherwise within the header |
| `Connection.Received` | code/http/httpconn.cc:59-66 | the bytes read() moves into the buffer from a socket holding them: all of them when edge-triggered, otherwise what one readv takes into the writable tail and the 65535-byte overflow array |
| `Connection.Parsed` | code/http/httpconn.cc:94-96 | what process() makes of the buffered bytes: no request when there are none, otherwise a parse from a freshly initialised request |
| `Connection.ResponseFor` | code/http/httpconn.cc:97-109 | the response process() initialises: code 200 with the request's keep-alive and path for GET_REQUEST, code 400 without keep-alive and with the request's path for BAD_REQUEST, the previous response left as it was otherwise |
| `Connection.HttpConn.Made` | code/http/httpconn.cc:110 | what makeResponse leaves: the response's fields as RespondState gives them, and its bytes as RespondText gives them after what the write buffer held |
| `Connection.HttpConn.Answered` | code/http/httpconn.cc:110-121 | makeResponse has run (Made) and the iovecs are set: iov_[0] over the write buffer's unread bytes, and a second iovec over the whole file exactly when a file with a non-zero length is mapped |
| `Connection.HttpConn.GetFd` | code/http/httpconn.cc:41-43 | getFd: the connection's descriptor |
| `Connection.HttpConn.IsKeepAlive` | code/http/httpconn.cc:130-132 | isKeepAlive: the request's |
| `Server.FlagsOf` | code/server/webserver.cc:146-167 | the listener word is EPOLLRDHUP, with EPOLLET for modes other than 0 and 1; the connection word is EPOLLONESHOT and EPOLLRDHUP, with EPOLLET for modes other than 0 and 2; any other mode counts as mode 3 |
| `Server.ModeFlagsDetermine` | code/server/webserver.cc:146-167 | a trigger mode fixes both words: two pairs that satisfy the mode's flags are equal |
| `Server.RearmWritable` | code/server/webserver.cc:266-269 | re-arming with connEvent_ asks for EPOLLOUT exactly when a response is waiting, because connEvent_ has neither EPOLLIN nor EPOLLOUT |
| `Server.RouteOf` | code/server/webserver.cc:69-85 | the listener's descriptor always accepts; on any other descriptor a hang-up or error wins over readability, readability over writability, and an event with none of these bits is unexpected, each case holding exactly when its bits say so |
| `Server.AdmissionBounds` | code/server/webserver.cc:184-202 | dealListen_ admits a prefix of the accept queue with no negative descriptor, never takes the user count past MAX_FD, turns a connection away only at the limit and only the one after those admitted, and admits at most one when the listener is level-triggered |
| `Server.AdmissionDrainsQueue` | code/server/webserver.cc:187-201 | an edge-triggered listener below the limit admits the whole queue and turns nobody away |
| `Server.AdmissionAt` | code/server/webserver.cc:188-201 | one loop iteration of dealListen_: a negative descriptor stops, a full server turns the descriptor away, otherwise it is admitted and the loop goes on only when edge-triggered |
| `Server.AdmitNext` | code/server/webserver.cc:200-201 | admitting one more descriptor moves the admitted prefix one place on |
| `Server.AdmissionStopped` | code/server/webserver.cc:189-198 | when the loop stops, what was admitted is exactly the prefix seen so far, and the descriptor it stopped at is turned away exactly when it was non-negative, wanted and refused for the limit |
| `Server.Appended` | code/server/webserver.cc:174-179 | adding one descriptor to the admitted list registers it with the connection events, gives it a timer that closes it, and adds it to the set of admitted descriptors |
| `Server.RegisteredIs` | code/server/webserver.cc:179 | after addFd for a list of descriptors, each of them holds the given events and every other registration is what it was |
| `Server.TimedIs` | code/server/webserver.cc:174-178 | after adding timers for a list of descriptors, each is due at the same time and closes its own descriptor; every other timer is what it was |
| `Server.Descriptors` | code/timer/heaptimer.cc:99-110 | the descriptors of the fired timers, one per timer, in firing order, and the same set as the timers' ids |
| `Server.ReadyIffSending` | code/http/httpconn.cc:68-91 | a connection is ready to write exactly when it is sound and its iovecs offer its response with the mapped file's bytes behind the second one |
| `Server.WriteStepsAsWritten` | code/server/webserver.cc:244-261 | as written, onWrite_ always ends in closeConn_ unless the response was drained on a keep-alive connection, and re-arms for EPOLLOUT exactly when bytes are left and write failed with EAGAIN |
| `Server.WriteSteps` | code/server/webserver.cc:244-261 | as evidently intended, onWrite_ takes one step: onProcess exactly when drained on a keep-alive connection, waiting for room exactly when bytes are left and write failed with EAGAIN, and closeConn_ in every other case |
| `Server.StallIsTheDifference` | code/server/webserver.cc:254-260 | the code as written and the intended one agree on every input except a stalled write, where the code as written re-arms and then closes |
| `Server.StalledResponseIsCut` | code/server/webserver.cc:254-260 | with one byte left on a keep-alive connection and a write that fails with EAGAIN, the code as written re-arms and closes, the intended one only waits |
| `Server.OnlyOneChanged` | code/server/webserver.cc:228 | delFd or modFd on one descriptor leaves every other registration as it was |
| `Server.ReadKeepsOthers` | code/server/webserver.cc:232-242 | without a fault, onRead_ either drops its own descriptor or re-arms it, so every other registration is kept and none is added |
| `Server.WriteKeepsOthers` | code/server/webserver.cc:244-271 | without a fault, whatever onWrite_ goes on to do touches only its own descriptor's registration |
| `Server.ReportedWritable` | code/server/webserver.cc:80-82 | epoll reports EPOLLOUT only on a connection that was re-armed for writing |
| `Server.StillDeliverable` | code/server/webserver.cc:69-86 | after one event of the list is handled and every other registration is kept, the rest of the list can still be answered |
| `Server.RegisteredKeepsOthers` | code/server/webserver.cc:179 | registering newly accepted descriptors, none of them registered already, leaves every existing registration as it was |
| `Server.WebServer.constructor` | code/server/webserver.cc:7-47 | a port outside 1024..65535 closes the server; otherwise the resource directory is the working directory's "resources", the user count is 0, the trigger mode settles the flags and the invariant holds; a failed socket set-up closes the server; no connection, registration or timer exists yet |
| `Server.WebServer.InitEventMode` | code/server/webserver.cc:146-169 | the listener and connection words are those of the trigger mode, HttpConn::isET is whether the connection word holds EPOLLET, and nothing else changes |
| `Server.WebServer.AddClient` | code/server/webserver.cc:171-182 | the descriptor gets an open connection with empty buffers (made on first use, reused otherwise), the user count rises by one, with timeouts on a timer due timeoutMS_ from now that closes it, and a registration for reading; other connections stay as they were |
| `Server.WebServer.Seat` | code/server/webserver.cc:173 | users_[fd] yields the descriptor's existing connection, or a fresh one recorded for it |
| `Server.WebServer.Adopt` | code/server/webserver.cc:173 | a descriptor not seen before gets a fresh connection with fresh buffers, request and response, all owned by that descriptor |
| `Server.WebServer.Arm` | code/server/webserver.cc:174-179 | an initialised connection gets its timer, with timeouts on, and its registration for reading, and the invariant holds again |
| `Server.WebServer.DealListen` | code/server/webserver.cc:184-202 | the connections admitted are those Admission names: each is registered for reading, timed with timeouts on and counted; the one turned away, if any, is recorded as sent "Server busy!"; existing connections and flags are unchanged and the invariant holds |
| `Server.WebServer.AdmitAll` | code/server/webserver.cc:187-201 | the accept loop runs until the queue ends, the limit is reached or, level-triggered, one connection was admitted, and every admitted one is registered, timed and counted |
| `Server.WebServer.AdmitOne` | code/server/webserver.cc:200 | addClient_ for the next descriptor of the queue moves admission one place on and keeps the invariant |
| `Server.WebServer.TurnAway` | code/server/webserver.cc:190-198 | the busy answer: the descriptor is recorded as turned away and no connection or registration changes |
| `Server.WebServer.CloseConn` | code/server/webserver.cc:225-230 | the descriptor leaves the interest list, the connection is closed with its mapped file released, the user count drops by one unless it was closed already, and no timer changes |
| `Server.WebServer.ExtentTime` | code/server/webserver.cc:220-223 | with timeouts on, the connection's timer is due timeoutMS_ from now and every other timer is unchanged; with timeouts off nothing changes |
| `Server.WebServer.Rebooked` | code/server/webserver.cc:63-66 | the server invariant survives any timer change that keeps each node's callback and leaves every registered descriptor timed or just fired |
| `Server.WebServer.Expire` | code/server/webserver.cc:64-66 | the connections closed are exactly those whose timers were due by now; they leave the interest list and the schedule, every remaining timer is due later, and epoll_wait's timeout is the time to the earliest one or -1 with none left |
| `Server.WebServer.FireAndClose` | code/timer/heaptimer.cc:99-120 | getNextTickMs with its callbacks: the due timers fire, their connections close and leave the interest list, and the timeout is the time to the next timer or -1 |
| `Server.WebServer.Fire` | code/timer/heaptimer.cc:99-120 | the timers due by now fire once each and leave the schedule; the later ones stay; the timeout is the time to the earliest remaining one or -1 |
| `Server.WebServer.TickTimer` | code/timer/heaptimer.cc:112-120 | getNextTickMs on the server's timer: exactly the due timers fire, each once, the rest stay, and the timeout is the time to the next or -1 |
| `Server.WebServer.CloseFired` | code/server/webserver.cc:175-177 | each fired timer's callback closes its connection, and exactly those descriptors leave the interest list |
| `Server.WebServer.Settle` | code/server/webserver.cc:65-67 | once every fired connection is closed, nothing is expiring and epoll_wait waits for the time the timer gave |
| `Server.WebServer.Step` | code/server/webserver.cc:63-86 | one turn of start(): with timeouts on, exactly the due connections are closed; each event is routed as RouteOf says, in order; without a fault every event is handled and the invariant holds |
| `Server.WebServer.Tick` | code/server/webserver.cc:64-66 | with timeouts on, the connections due by now are closed and leave the interest list; with timeouts off nothing is closed and the timeout is unchanged |
| `Server.WebServer.Dispatch` | code/server/webserver.cc:69-86 | the events are handled in order, each routed as RouteOf says, until a handler faults; without a fault all are handled and the invariant holds |
| `Server.WebServer.HandleNext` | code/server/webserver.cc:70-85 | one event is handled as RouteOf routes it, and without a fault the events after it can still be answered |
| `Server.WebServer.HandleEvent` | code/server/webserver.cc:70-85 | one event is routed as RouteOf says; accepting, hanging up and unexpected events never fault; only the listener adds connections; without a fault every other descriptor's registration is kept |
| `Server.WebServer.Listen` | code/server/webserver.cc:72-73 | the listener's event runs dealListen_ on descriptors not yet registered, keeping every existing registration |
| `Server.WebServer.HandleConn` | code/server/webserver.cc:74-85 | a hang-up or error closes the connection and drops its registration, an unexpected event changes nothing, and otherwise only the connection's own registration may change |
| `Server.WebServer.DealRead` | code/server/webserver.cc:212-218 | with timeouts on, the connection's timer is pushed back to timeoutMS_ from now; then the read closes the connection exactly when it failed with an error other than EAGAIN, and otherwise the connection is re-armed as onProcess decides |
| `Server.WebServer.DealWrite` | code/server/webserver.cc:204-210 | with timeouts on, the connection's timer is pushed back to timeoutMS_ from now; then the corrected onWrite_ (`OnWrite`) runs, touching only this connection's registration |
| `Server.WebServer.DelFd` | code/server/webserver.cc:228 | the descriptor leaves the interest list and nothing else changes |
| `Server.WebServer.ModFd` | code/server/webserver.cc:266-269 | the descriptor's registration becomes connEvent_ with EPOLLOUT or EPOLLIN and nothing else changes |
| `Server.WebServer.OnRead` | code/server/webserver.cc:232-242 | the read buffer gains what the socket held; the read closes the connection exactly when it failed with an error other than EAGAIN; otherwise the parse of the grown buffer decides: it faults exactly when the parse faults, and the connection is re-armed for writing exactly when a response was produced |
| `Server.WebServer.AfterRead` | code/server/webserver.cc:236-241 | a return below zero with an errno other than EAGAIN closes the connection; anything else goes on to onProcess |
| `Server.WebServer.Receive` | code/http/httpconn.cc:59-66 | the read buffer gains exactly what the reads took from the socket, and the read counts as failed with an error other than EAGAIN exactly when the last readv failed so and either nothing was read or the connection is edge-triggered |
| `Server.WebServer.Flush` | code/http/httpconn.cc:68-91 | write() sends some bytes of the response, no more than the peer takes and than were left, and a failure comes only after the peer's room is used up, with bytes still left |
| `Server.WebServer.OnWrite` | code/server/webserver.cc:244-261 | write, then do what WriteSteps says for the bytes left: onProcess on a drained keep-alive connection, keep waiting for EPOLLOUT after a stall, close otherwise |
| `Server.WebServer.AfterWrite` | code/server/webserver.cc:248-260 | after write(), the step WriteSteps names for the bytes left, keep-alive and the error is taken |
| `Server.WebServer.WaitOrClose` | code/server/webserver.cc:254-260 | a stall with bytes left keeps the registration; every other case closes the connection |
| `Server.WebServer.OnWriteAsWritten` | code/server/webserver.cc:244-261 | write, then do what WriteStepsAsWritten says: as OnWrite, except that a stalled write is re-armed and then closed with bytes of its response unsent |
| `Server.WebServer.AfterWriteAsWritten` | code/server/webserver.cc:248-260 | after write(), the steps WriteStepsAsWritten names are taken |
| `Server.WebServer.KeepWaiting` | code/server/webserver.cc:257 | re-arming a connection registered for writing for EPOLLOUT again changes nothing |
| `Server.WebServer.RearmThenClose` | code/server/webserver.cc:257-260 | the stalled path as written: modFd for EPOLLOUT, then closeConn_, with the bytes left unsent |
| `Server.WebServer.OnProcess` | code/server/webserver.cc:263-271 | a fault from process() ends the server; otherwise the connection is re-armed for writing exactly when the parse of its read buffer produced a response, and for reading when more input is needed |
| `Server.PortInRange` | code/server/webserver.cc:17-21 | the ports the constructor accepts: 1024 through 65535 |
| `Server.ModeFlags` | code/server/webserver.cc:146-169 | the flags initEventMode_ settles: the listener asks for EPOLLRDHUP, a connection for EPOLLONESHOT and EPOLLRDHUP; connections are edge-triggered in every mode but 0 and 2, the listener in every mode but 0 and 1; no other bit is set |
| `Server.Rearm` | code/server/webserver.cc:263-271 | the events modFd re-arms a connection with: connEvent_ plus EPOLLOUT when a response waits, plus EPOLLIN otherwise |
| `Server.Admission` | code/server/webserver.cc:184-202 | dealListen_'s loop over the accept queue: a negative descriptor ends it, a descriptor arriving at MAX_FD users is turned away as busy and ends it, any other is admitted, and a level-triggered listener stops after one |
| `Server.Registered` | code/server/webserver.cc:179 | the interest list after addClient_ registered each admitted descriptor, in order, with connEvent_ plus EPOLLIN |
| `Server.Timed` | code/server/webserver.cc:174-178 | the timer schedule after addClient_ added, for each admitted descriptor, a timer due timeoutMS_ from now that closes that connection |
| `Server.Reportable` | code/server/webserver.cc:67 | the events epoll may report for a registered connection: those it asked for, plus EPOLLERR and EPOLLHUP |
| `Server.Deliverable` | code/server/webserver.cc:67 | a list epoll_wait can return: each descriptor at most once, connections only when registered and with reportable events, the listener with an accept queue of descriptors not open as connections |
| `Server.WebServer.Due` | code/server/webserver.cc:64-66 | the connections whose timers have expired at the round's clock reading, which getNextTickMs closes |

## Left out

- Thread pool: the worker tasks of dealRead_ and dealWrite_ run to completion, one after another, in event order. The model has no interleaving, so nothing is said about races on a connection or on the atomic `userCount`, which is a plain integer field.
- Logging: every `Log_*` call is left out. It changes no state the model tracks.
- initSocket_: the sockets, setsockopt, bind, listen and the listener's own registration (code/server/webserver.cc:90-144) are reduced to a `socketOk` argument of the constructor. The listening descriptor is never part of `armed`. The model's events for it carry the accept queue instead.
- SetFdNonblock, accept, send of "Server busy!" and close: the accept loop's descriptors come in as a sequence ending at the first negative value. `busy` records each descriptor turned away. The bytes sent to it and their errors are left out.
- readv, writev and write: a socket is an `Inbound` (the bytes it holds, then what readv reports once they are used up) or an `Outbound` (how many bytes it takes, then how writev fails).
  - Every write ends in `WriteFailed`: the model does not cover a writev that returns 0 while bytes are offered, or one that takes only part of its room. A writev offered nothing returns 0 (`Connection.HttpConn.WriteOnce`).
  - A read that returns bytes ends in a peer close (`ReadBytes([])`) or an errno.
- stat, open, mmap and munmap: a `Files` record stands for these calls. It says which paths exist with what mode and size, which open and which map. The mapped file's bytes are `Blank` characters: only their number matters to the write accounting.
- Bytes are Dafny `char`. The model does not restrict them to the 256 values of a C++ `char`.
- Integer widths: `toWriteBytes()` returns `size_t` narrowed to `int` (code/http/httpconn.cc:126-128). `userCount` is an `atomic<int>`. The model keeps both unbounded, so neither responses over 2 GiB nor counter overflow are modelled. std::stoi's 32-bit range is modelled (decimal.dfy).
- std::regex: the two patterns are written as character predicates (httpgrammar.dfy). Each is proved equal to its pattern's structure, which is not the library's matcher.
- UserVerify and the MySQL pool (code/http/httprequest.cc:232-285): a `UserDb` oracle from (name, password, isLogin) to a verdict stands for them.
- Exceptions and undefined reads are `Fault` values: std::stoi's invalid_argument and out_of_range, and the read past the end of a body that ends in '%'. A fault escaping a worker ends the server (`Step` stops), as an uncaught exception ends the process.
- Clocks: each round has one reading `now` in milliseconds. The timer tick and every handler of the round use it.
- start(): the endless loop is one `Step` per round. The model proves what one round keeps, not what an infinite run does.
- epoll itself: what it may report is the precondition `Deliverable` on each round's events: each descriptor at most once, only registered connections, only events they asked for plus EPOLLERR and EPOLLHUP. The kernel's readiness logic is not modelled.
- The destructor, getIp, getPort and the peer address: they release resources or produce log text only.
- Request split across reads: process() re-initialises the request every time, so a request whose bytes arrive in two reads need not parse as it would whole. The model follows that and proves no equivalence.
- Timer.HeapTimer.Del: removing a node from the middle of the heap only sifts the moved node down (code/timer/heaptimer.cc:67-77). `Timer.DeletedOrders` therefore promises heap order everywhere except between that slot and its parent, and full order only when the root is removed (`pop`). `Timer.InteriorDeleteBreaksOrder` shows a heap that loses its order this way. So doWork on an id that is not the earliest keeps only this weaker order. That is the code's behaviour, not a gap in the proof.
- Connection.HttpConn.constructor: sets `iovCnt`, `iov0` and `iov1` to zero. HttpConn() (code/http/httpconn.cc:9-13) leaves `iovCnt_` and `iov_` uninitialised, and toWriteBytes (code/http/httpconn.cc:126-128) adds `iov_[1].iov_len` even when process() set only `iov_[0]` (code/http/httpconn.cc:112-118). So on a connection whose first response maps no file, toWriteBytes is the header length in the model but reads an indeterminate value in the source. Later responses reuse whatever the previous one left in `iov1`, in both.
- Server.WebServer.OnProcess: states whether a fault escapes and how the connection is re-armed, both in terms of the parse of its read buffer. It does not repeat the response bytes; `Connection.HttpConn.Process` states those.
- Server.WebServer.OnRead: on the processing path it states the fault and re-arm choice, not the response bytes, as for OnProcess.
- Server.WebServer.DealWrite: states the timer update and that only the connection's own registration changes. The write steps themselves are stated by `Server.WebServer.OnWrite`, which it calls. That is the corrected onWrite_ of the first finding, not the code as written: after a write that stalls on EAGAIN, the model keeps the connection registered for EPOLLOUT, where the source (code/server/webserver.cc:254-260) closes it. `Server.WebServer.OnWriteAsWritten` models the source's steps but no handler calls it.
- Server.WriteSteps: corrects only the EAGAIN stall. On a level-triggered connection, write() also stops after a writev that returned bytes when at most 10240 bytes are left (code/http/httpconn.cc:89). onWrite_ then closes the connection with those bytes unsent, and so does `WriteSteps`. The model keeps that behaviour and does not claim the correction is complete.
- Server.WebServer.Listen: states that existing registrations are kept. The admission itself is stated by `Server.WebServer.DealListen`.
- Server.WebServer.Step: states the timers fired, the route of every event and the invariant. Its write events run the corrected onWrite_ (see DealWrite). The effect of each event is stated by `HandleEvent`, `HandleConn` and the handlers below them, not composed over the round.

## Findings

| source | as written | input that shows it | evidently intended | confidence | as-written member | corrected member |
|---|---|---|---|---|---|---|
| code/server/webserver.cc:254-260 | after a write that stalls on EAGAIN, onWrite_ re-arms the connection for EPOLLOUT and then, lacking a `return`, falls through to closeConn_, so the rest of the response is never sent | bytes left 1, keep-alive, write returns -1 with errno EAGAIN (`StalledResponseIsCut`) | the comment at line 256 says the buffer is full and the write must be repeated: keep the connection registered for EPOLLOUT and return | not executed | `Server.WriteStepsAsWritten`, `Server.WebServer.OnWriteAsWritten` | `Server.WriteSteps`, `Server.WebServer.OnWrite` (used by `DealWrite`; `StallIsTheDifference` proves the two differ only on this input class) |
| code/http/httpresponse.cc:63-70 | process() prepares code 400 for BAD_REQUEST with an empty path (code/http/httpconn.cc:104-105), but makeResponse first stats the resource directory itself, finds a directory and answers 404 | "BAD LINE\r\n\r\n" with the resource directory present (`BadLineExample`, `BadLineAnswered404`) | the 400 passed to init() is answered with the 400 page | not executed | `Response.Headed`, `Connection.BadLineAnswered404` | `Response.HeadedIntended`, `Response.IntendedKeepsErrorCode`, `Connection.BadLineIntended400` |

The first row's corrected behaviour is the one the server model runs. For the second, the response chain (`Response.HttpResponse.MakeResponse`, `Connection.HttpConn.Process`) keeps the code as written, which is what the server sends. The intended decision is stated beside it and differs from it only for a code passed in that has an error page.

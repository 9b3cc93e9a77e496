# brr: a verified model of a tiny HTTP server's request handling

brr is a single-file HTTP/1.1 server in C (`brr.c`). For each connection it reads at most
1023 bytes into a buffer and NUL-terminates them. It then parses the request with
`parse_request`, which works by string surgery inside that same buffer. Next it maps the
request path to a file name and resolves that name with `realpath`. The request is refused
unless the server root is a textual prefix of the result. An accepted `.cgi` script is
handed to a gateway together with the request body. Any other file is served with a
content type chosen by its extension, or the server answers 404.

This project models that path, from "bytes arrived" to "what is sent", and proves what it
computes.

- **C strings** (`cstring.dfy`): a C string is a `seq<char>` plus a start index, ending at
  the first NUL. The library routines `strstr`, `strchr`, `strtok` and bounded `strncpy` are
  total functions. Each has a method over `array<char>` that walks the buffer as the C
  routine does.
- **parse_request** (`parser.dfy`, `headers.dfy`): `Parser.ParseRequest` is a method over
  `array<char>` that performs the same writes as the C code:
  - NUL on the request line's CR;
  - on the path copy, NUL at the '?' and at each '&' strtok consumes, and at the '=' that is
    found;
  - on each consumed header line, NUL at its CR and at its first ':'.

  It is proved equal to the function `Parser.Parse`, which says what the C code computes, in
  the same order. The header loop (`Headers.ParseHeaders`) is proved against
  `Headers.HeaderBlock`. Two quirks of the source are modelled as written:
  - the sscanf widths `%9s %1023s %19s` let an over-long method spill into the path, and the
    real path then lands in the protocol;
  - `strchr(param_start, '=')` searches from the start of the query rather than from the
    current token, so at most one query parameter is ever recorded.
- **What parsing computes** (`scan_facts.dfy`, `query_facts.dfy`, `header_facts.dfy`,
  `parse_facts.dfy`): these lemmas state the request-line widths and the spill, the query
  string, the headers, the body and the NULs written to the buffer.
- **Path resolution** (`resolve.dfy`): `realpath` is a parameter `canon`, a partial function
  returning a NUL-free path.
  - The verdict uses the source's `strncmp(full, root, strlen(root))`. It is proved to be a
    plain prefix test, which is why a root of `/srv/www` accepts `/srv/wwwevil/x`.
  - When `realpath(".")` fails at start-up, the root is empty. Every path that realpath
    resolves is then accepted; the others still get 403.
  - `handle_client` reads `request.path + 1` even when the path string is empty. A target
    that starts with '?' then asks `realpath` about the string the query code left after the
    '?': the text up to the first '=' or the '&' that ends the first &-token, whichever comes
    first. So `?a=1` asks about `a` and `?x&y` about `x` (the model keeps the whole path array
    for that reason).
- **Dispatch** (`dispatch.dfy`, `server.dfy`):
  - the extension is `strrchr(full_path, '.')` over the whole canonical path;
  - `.cgi` goes to the gateway with the body;
  - otherwise a case-sensitive table picks the content type;
  - the 403 and 404 texts are the source's constants;
  - the 200 answer is its header followed by the file, copied in chunks through a 1024-byte
    array.

  `Server.HandleClient` performs the whole connection and is proved equal to the function
  `Server.Respond`. `fopen`/`fread` are the parameter `content`.

## Model

| member | source | states |
|---|---|---|
| CString.FindCrlf | brr.c:41 | strstr(s, "\r\n"): a found CRLF lies within the string at `from`. |
| CString.FindCrlfFacts | brr.c:41 | A found CRLF is the first one in the string; when none is found, there is none before the terminator. |
| CString.Strchr | brr.c:49 | strchr: the index found holds the character, and no earlier one does; when none is found, the string has none. |
| CString.StrtokFacts | brr.c:54 | strtok: separators are skipped and the token holds neither separator nor NUL. When a separator ends the token, the only write is one NUL on it and strtok resumes just after it. When the token runs to the terminator, nothing changes and strtok resumes at the terminator. When no token is found, nothing changes and strtok resumes after the skipped separators. |
| CString.CopyField | brr.c:59-63 | strncpy into a field of width n followed by a NUL there: the whole string when it has at most n characters, otherwise exactly its first n. |
| CString.StrtokOf | brr.c:54 | On the buffer as a method: returns and writes exactly what Strtok computes. |
| Parser.ScanStringOf | brr.c:45 | One %<width>s conversion over the buffer equals ScanString. |
| Parser.ScanRequestLineOf | brr.c:45 | The three conversions of sscanf("%9s %1023s %19s") equal ScanRequestLine. |
| Parser.ParamStepOf | brr.c:56-65 | The loop body cuts the first '=' after param_start and records the pair, as ParamStep does. |
| Parser.ParseQuery | brr.c:49-68 | The path array and the parameters after the query code are those of SplitQuery on the array as sscanf left it. |
| Parser.NewPath | brr.c:38-45 | The zeroed path array holding the word sscanf stored. |
| Parser.ParseRequest | brr.c:36-98 | parse_request on the caller's buffer: the request returned and the buffer afterwards are exactly Parse of the buffer as read. |
| Parser.ParseLineOf | brr.c:44-96 | parse_request after the request line's CR is cut, as ParseLine. |
| Parser.RequestLineOf | brr.c:45-68 | The request line read by sscanf and its query string split as SplitQuery, with the caller's buffer untouched. |
| Parser.HeaderPart | brr.c:70-97 | The request assembled from the request line, the query and the header loop. |
| Headers.HeaderLineOf | brr.c:79-93 | One header line is cut in place: NUL on its CR and its first ':'. The pair recorded is LinePair of the line as read. |
| Headers.HeaderTurn | brr.c:79-94 | One loop turn on a line of the original buffer: its pair, its NULs, and the rest of the buffer unchanged. |
| Headers.LoopTurn | brr.c:72-95 | A non-empty line leaves the outcome of the whole loop unchanged, and the loop advances past its CRLF. |
| Headers.ParseHeaders | brr.c:70-96 | The header loop: headers, body, body_len and the buffer afterwards are those of HeaderBlock over the buffer as read. |
| Headers.CutAt | brr.c:79-82 | After the writes, a position holds NUL if it is one of the written positions, and its old byte otherwise. |
| ScanFacts.ScanStringFacts | brr.c:45 | A conversion skips blanks and stores the following non-blank, non-NUL run. The run fits the width and stops early only at a blank, a NUL or the end. |
| ScanFacts.RequestLineFits | brr.c:45 | Method, path and protocol are at most 9, 1023 and 19 characters and hold no NUL. |
| ScanFacts.ScanWord | brr.c:45 | A conversion at the start of a word no longer than its width stores that whole word. |
| ScanFacts.MethodSpill | brr.c:45 | A first word longer than 9 characters fills the method with its first 9. The path gets the rest of that word, and the real path becomes the protocol. |
| ScanFacts.NoRequestLine | brr.c:38-43 | Without a CRLF: the all-zero request (empty fields, no headers, params or body, body_len 0) and an untouched buffer. |
| QueryFacts.SplitQueryMeaning | brr.c:49-68 | The path string ends before the first '?'. The parameters are QueryParams: the first &-token after the '?', split at its first '='. |
| QueryFacts.QueryLoop | brr.c:54-67 | The whole strtok loop records exactly the pair of the first token. |
| QueryFacts.AtMostOneParam | brr.c:56 | At most one parameter is ever recorded. |
| QueryFacts.FirstPairOnly | brr.c:54-67 | For `path?key=value&rest`, only (key, value) is recorded, whatever `rest` holds. |
| QueryFacts.FirstPairRecorded | brr.c:49-67 | The same over the path array the code works on. |
| QueryFacts.OnlyFirstParam | brr.c:54-67 | "/p?a=1&b=2" records only (a, 1). |
| QueryFacts.FirstTokenWithoutEquals | brr.c:56-65 | A first token without '=' records no parameter. |
| QueryFacts.TokenPair | brr.c:58-63 | A token `key=value` gives the pair (key, value) when the fields fit. |
| QueryFacts.QueryStringCut | brr.c:49-67 | After the loop, the string at the byte after the first '?' is QueryString of the text after that '?'. |
| QueryFacts.QueryString | brr.c:54-58 | The query string left by the loop is a prefix of the query text and holds no '='. |
| QueryFacts.QueryStringEnds | brr.c:54-58 | The query string is the whole query text, or the text goes on with an '=', or with the '&' that ends the first token after the skipped '&' run. |
| QueryFacts.QueryStringOf | brr.c:54-58 | Query text made of a key free of '&' and '=', then '&' or '=', leaves just that key. |
| HeaderFacts.HeaderCount | brr.c:72 | header_count never exceeds 100. |
| HeaderFacts.HeadersFit | brr.c:87-91 | Every recorded key is at most 49 and every value at most 499 characters, without NUL. |
| HeaderFacts.LinePairFits | brr.c:87-91 | A line's pair fits its fields. |
| HeaderFacts.BodyAfterEmptyLine | brr.c:72-77 | A body is found only while fewer than 100 headers are recorded. It starts right after an empty line, which opens the block or follows another CRLF, and no "\r\n\r\n" starts in the lines before it: it is the first empty line. |
| HeaderFacts.EmptyLineFound | brr.c:72-77 | Conversely, when the lines from the start up to an empty line hold no NUL and no earlier "\r\n\r\n", the body starts right after that empty line, unless exactly 100 headers were recorded first. |
| HeaderFacts.WritesAt | brr.c:72-95 | The loop writes only on the CR of a CRLF or on the first ':' of a line, where lines start at the block's start and after each CRLF. It writes only on the lines it consumes: never before the block, never from the line where it stops on, and so, when a body is found, always before its empty line. |
| HeaderFacts.StopFacts | brr.c:72-95 | The loop stops at a line start: the block's start or just after a CRLF. It stops there because no CRLF is found before the terminator, or 100 headers are recorded, or the line is empty. There is a body exactly in the last case below 100 headers, and it starts right after that empty line. |
| HeaderFacts.StopFirst | brr.c:72-95 | The stop is the first line start where the loop exits. The loop reaches it with all the headers counted. At every line start it reaches before the stop, it finds a CRLF ending a non-empty line, with fewer than 100 headers so far. No NUL lies before the stop. |
| HeaderFacts.StopUnique | brr.c:72-95 | A line start the loop reaches and exits at is the stop, reached with all the headers counted. |
| HeaderFacts.VisitsPast | brr.c:72-95 | At a line start the loop reaches before another one it reaches, it finds a CRLF ending a non-empty line, with fewer than 100 headers. |
| HeaderFacts.VisitsCount | brr.c:72-95 | The loop reaches a line start with only one header count. |
| HeaderFacts.StopAgree | brr.c:71-95 | Buffers that agree from the block's start on make the loop stop at the same line. |
| HeaderFacts.LineWithoutColon | brr.c:80-93 | A line without ':' records nothing, and only its CR is cut. |
| HeaderFacts.LineKeyValue | brr.c:80-91 | `key:` followed by blanks and a value gives (key, value): the key is all before the first ':' and only ' ' is skipped. |
| HeaderFacts.XTestHeader | brr.c:80-91 | "X-Test:   value" gives (X-Test, value). |
| ParseFacts.ParseFits | brr.c:21-35 | Every field of the parsed request fits its array with its NUL, and both counts stay within their arrays. |
| ParseFacts.ParseOnlyCuts | brr.c:44-95 | Without a CRLF the buffer is unchanged. Otherwise the request line's CR becomes NUL, and any other byte that changes becomes NUL. It lies after the request line's CRLF, before the line where the header loop stops, and is the CR of a CRLF or the first ':' of its header line. |
| ParseFacts.HeaderCuts | brr.c:72-95 | The header loop writes only after the request line's CRLF and before the line where it stops, only NUL, and only on the CR of a CRLF or the first ':' of a header line. |
| ParseFacts.TrailingLineKept | brr.c:72-95 | In "G\r\nA:b" the last line has no CRLF, so the loop never consumes it and its ':' is left as read. |
| ParseFacts.ParseBody | brr.c:72-77 | A body starts right after the first "\r\n\r\n" of the buffer as read, and fewer than 100 headers were recorded. |
| ParseFacts.ParseFindsBody | brr.c:72-77 | Conversely, a first "\r\n\r\n" before the terminator gives a body right after it, unless exactly 100 headers were recorded first. |
| ParseFacts.ParseKeepsBody | brr.c:75-76 | The body string is the one read, and body_len is its length. Without a body, body_len is 0. |
| ParseFacts.BodyLenBound | brr.c:151-157 | For a buffer of at most 1024 bytes, body_len is below 1024. |
| Resolve.StrnEqIsPrefix | brr.c:175 | strncmp(full, root, strlen(root)) == 0 exactly when root is a prefix of full. |
| Resolve.RequestedPathOf | brr.c:166-170 | The requested path is "index.html" for the path "/", and otherwise the path string without its first character. |
| Resolve.Check | brr.c:174-183 | An accepted path is the canonical path realpath gave. |
| Resolve.CheckMeaning | brr.c:174-183 | Rejected exactly when realpath fails or the root is not a textual prefix of the canonical path; otherwise accepted with that path. |
| Resolve.SiblingPrefixAccepted | brr.c:174-175 | Any canonical path that starts with the root's characters is accepted, whatever follows them. |
| Resolve.SiblingDirectoryServed | brr.c:174-175 | A root of /srv/www accepts the canonical path /srv/wwwevil/x. |
| Resolve.EmptyRootAcceptsAll | brr.c:247-249 | When realpath(".") fails the root is the empty zeroed global, and then every path realpath resolves is accepted, and only those. |
| Dispatch.LastIndex | brr.c:189 | strrchr: the index found holds the character and no later one does; when none is found, the string has none. |
| Dispatch.Extension | brr.c:189 | The extension is the suffix from the last '.' of the whole path and holds no other '.'. When the path has no '.', there is none. |
| Dispatch.ExtensionOf | brr.c:189 | A path ending in '.' plus a suffix without '.' has that suffix as its extension. |
| Dispatch.ContentType | brr.c:188-209 | The if/else chain agrees with the table CONTENT_TYPES. Anything else, or no extension, is text/plain. |
| Dispatch.KnownExtension | brr.c:197-209 | A path ending in a table extension whose file opens is served with that extension's type. |
| Dispatch.CgiExtension | brr.c:189-195 | A path ending in ".cgi" goes to the gateway with the body. |
| Dispatch.UpperCaseHtmlIsPlain | brr.c:198-208 | Comparison is case-sensitive: a path ending in ".HTML" is served as text/plain. |
| Dispatch.UpperCaseCgiNotRun | brr.c:191 | A path ending in ".CGI" is not run as a script. |
| Dispatch.DotInDirectory | brr.c:189 | A '.' in a directory name with none in the file name gives that directory's suffix, so the file is text/plain. |
| Dispatch.Serve | brr.c:187-219 | Gateway exactly for ".cgi", with the path and the input. Otherwise 404 exactly when the file cannot be opened, or the file's bytes with the content type of its extension. |
| Dispatch.Fread | brr.c:232 | fread copies the next bytes of the file, as many as fit in the array, and leaves the rest of the array as it was. |
| Dispatch.SendFile | brr.c:221-235 | The chunk loop writes the 200 header for the content type, followed by the whole file. |
| Server.HandleClient | brr.c:147-238 | handle_client on the bytes read: the response is Respond's, and what it writes is that response's text. |
| Server.ForbiddenExactly | brr.c:172-183 | The answer is 403 exactly when realpath fails on the requested path or the root is not a prefix of its canonical form. |
| Server.AcceptedAnswer | brr.c:187-236 | An accepted request goes to the gateway exactly for ".cgi". Otherwise it gets 404 exactly when the file cannot be opened, or the file with its extension's type. |
| Server.GatewayGetsBody | brr.c:139-141 | The gateway is fed the body as it was read, body_len bytes of it, or nothing without a body. |
| Server.GatewayBodyBound | brr.c:151-157 | The gateway's input is shorter than 1024 bytes, and a body starts right after the first "\r\n\r\n" of what was read. |
| Server.RequestedFromTarget | brr.c:166-170 | "index.html" for a target whose part before '?' is "/", and otherwise that part without its first character. When that part is empty, a target with a '?' gives the query string of the text after it, and the empty target gives the empty string. |
| Server.QueryKeyTarget | brr.c:49-65 | A target '?' + k + rest, where k has neither '&' nor '=' and rest starts with '&' or '=', asks realpath about k. |
| Server.QueryOnlyTarget | brr.c:49-65 | "?a=1" asks realpath about "a". |
| Server.QueryTokenTarget | brr.c:49-65 | "?x&y" asks realpath about "x". |

## Left out

- `main` (brr.c:240-315): sockets, `SO_REUSEADDR`, bind, listen, accept and the fork per connection are operating-system I/O and process concurrency.
- `handle_cgi` (brr.c:105-145): pipe, fork, dup2, execve and waitpid are process plumbing. The model records only the script path and the bytes written to its input (strlen(body), or none). What the script sends to the client is not modelled.
- `sigchld_handler` (brr.c:100-103): asynchronous reaping of child processes is concurrency.
- `read`, `write`, `close`, `realpath`, `fopen`, `fread` and `fclose` are not modelled. The bytes read are the parameter `data`, realpath is `canon` and a file's bytes are `content`. What is written is returned as a sequence. The return values of `write` are ignored, as in the source.
- The read failure that exits the process (brr.c:152-155) is I/O: `data` is what a successful read returned.
- `printf` and `perror` are logging.
- Server.HandleClient: the read buffer is modelled as the bytes read followed by their NUL, not as the whole 1024-byte array. The parser's searches and copies all stop at the first NUL.
- Resolve.ServerRoot: when realpath(".") fails, server_root_path is taken to be the zeroed global, that is, empty. That the C library leaves the output buffer unwritten on failure is assumed, not modelled.
- Dispatch.Fread: always returns as many bytes as fit; a read error, which the source cannot tell from the end of the file, is not modelled. A short read that is not 0 would send the same bytes, but a 0 return before the end of the file ends the loop at brr.c:232 early.
- Dispatch.SendFile: sends the whole file because Fread never fails. After a read error the source would send only the bytes read before it.
- The sprintf into `ok_header[256]` cannot overflow for the five content types named by the seven extensions, plus the default text/plain, so it is modelled without a size limit.

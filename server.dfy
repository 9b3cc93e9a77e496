/** handle_client (brr.c:147-238): one connection from the bytes read to what is sent.

    The bytes read from the socket are the parameter `data`; realpath and fopen/fread
    are the parameters `canon` and `content`; the server root is a parameter too, as
    main computes it (Resolve.ServerRoot). The method HandleClient follows the C code
    and is proved to agree with the function Respond, whose meaning the lemmas below
    state. */
module Server {
  import opened CString
  import opened Request
  import opened Text
  import opened Parser
  import opened QueryFacts
  import opened ParseFacts
  import opened Resolve
  import opened Dispatch

  /** handle_client's buffer after read and `buffer[bytes_read] = '\0'` (brr.c:148-157): the
      bytes read, then a NUL. */
  function ReadBuffer(data: seq<char>): (s: seq<char>)
    ensures |s| == |data| + 1 && s[..|data|] == data && s[|data|] == NUL
  {
    data + [NUL]
  }

  /** post_data as handle_cgi writes it to the script (brr.c:139-141): strlen(body) bytes from
      `body`, or nothing when it is NULL. */
  function GatewayInput(p: Parsed): string
    requires p.req.body.Some? ==> p.req.body.value <= |p.buf|
  {
    if p.req.body.Some? then CStr(p.buf, p.req.body.value) else []
  }

  /** What handle_client decides for the bytes `data` (brr.c:161-219). */
  function Respond(data: seq<char>, root: CPath, canon: Canon, content: Content): Response
  {
    var s := ReadBuffer(data);
    var p := Parse(s);
    ParseFits(s);
    ParseKeepsBody(s);
    match Check(root, canon, RequestedPath(p.req.path))
    case Reject => Forbidden
    case Accept(full) => Serve(full, GatewayInput(p), content)
  }

  /** The path handle_client asks realpath about for the bytes `data`. */
  function Requested(data: seq<char>): string {
    var s := ReadBuffer(data);
    ParseFits(s);
    RequestedPath(Parse(s).req.path)
  }

  /** handle_client: parse the buffer, map and check the path, then answer with 403, the
      gateway, 404 or the file. `sent` is what the server itself writes to the client. */
  method HandleClient(data: seq<char>, root: CPath, canon: Canon, content: Content) returns (resp: Response, sent: seq<char>)
    requires |data| < BUFFER_SIZE
    ensures resp == Respond(data, root, canon, content)
    ensures sent == Sent(resp)
  {
    var buffer := new char[|data| + 1](i => if 0 <= i < |data| then data[i] else NUL);
    ghost var s := buffer[..];
    assert s == ReadBuffer(data);
    assert s[|data|] == NUL;
    ParseFits(s);
    ParseKeepsBody(s);
    var request := ParseRequest(buffer);
    ghost var p := Parsed(request, buffer[..]);
    assert p == Parse(s);
    var requested := RequestedPath(request.path);
    var verdict := Check(root, canon, requested);
    if verdict.Reject? {
      resp := Forbidden;
      sent := FORBIDDEN_TEXT;
      return;
    }
    var full := verdict.full;
    var ext := Extension(full);
    if ext == Some(".cgi") {
      var input := if request.body.Some? then CStr(buffer[..], request.body.value) else [];
      assert input == GatewayInput(p);
      resp := Cgi(full, input);
      sent := [];
      return;
    }
    var contentType := ContentType(ext);
    match content(full)
    case None =>
      resp := NotFound;
      sent := NOT_FOUND_TEXT;
    case Some(f) =>
      resp := Ok(contentType, f);
      sent := SendFile(contentType, f);
  }

  /** The response is 403 exactly when realpath fails on the requested path or the root is not
      a textual prefix of its canonical form (brr.c:174-183). */
  lemma ForbiddenExactly(data: seq<char>, root: CPath, canon: Canon, content: Content)
    ensures var c := canon(Requested(data));
            Respond(data, root, canon, content) == Forbidden <==> c.None? || !(root <= c.value)
  {
    CheckMeaning(root, canon, Requested(data));
  }

  /** An accepted request is answered from its canonical path: ".cgi" goes to the gateway,
      otherwise 404 when the file cannot be opened, or the file with the content type of its
      extension (brr.c:187-236). */
  lemma AcceptedAnswer(data: seq<char>, root: CPath, canon: Canon, content: Content)
    requires var c := canon(Requested(data)); c.Some? && root <= c.value
    ensures var full := canon(Requested(data)).value;
            var r := Respond(data, root, canon, content);
            && (r.Cgi? <==> Extension(full) == Some(".cgi"))
            && (r.Cgi? ==> r.script == full)
            && (r.NotFound? <==> Extension(full) != Some(".cgi") && content(full).None?)
            && (r.Ok? ==> content(full) == Some(r.bytes) && r.contentType == ContentType(Extension(full)))
  {
    CheckMeaning(root, canon, Requested(data));
  }

  /** The gateway is fed the body exactly as it was read: the bytes after the empty line up to
      the first NUL, body_len of them, and nothing without a body (brr.c:139-141, brr.c:193). */
  lemma GatewayGetsBody(data: seq<char>, root: CPath, canon: Canon, content: Content)
    ensures var r := Respond(data, root, canon, content);
            var req := Parse(ReadBuffer(data)).req;
            r.Cgi? ==>
              && |r.input| == req.bodyLen
              && (req.body.None? ==> r.input == [])
              && (req.body.Some? ==> r.input == CStr(ReadBuffer(data), req.body.value))
  {
    ParseKeepsBody(ReadBuffer(data));
    ParseFits(ReadBuffer(data));
  }

  /** The body fed to the gateway is shorter than the read buffer and, when present, comes right
      after the first "\r\n\r\n" of what was read (brr.c:72-77, brr.c:151-157). */
  lemma GatewayBodyBound(data: seq<char>, root: CPath, canon: Canon, content: Content)
    requires |data| < BUFFER_SIZE
    ensures var r := Respond(data, root, canon, content);
            var req := Parse(ReadBuffer(data)).req;
            && (r.Cgi? ==> |r.input| < BUFFER_SIZE)
            && (req.body.Some? ==> AfterFirstEmptyLine(ReadBuffer(data), req.body.value))
  {
    var s := ReadBuffer(data);
    GatewayGetsBody(data, root, canon, content);
    BodyLenBound(s);
    ParseBody(s);
  }

  /** The requested path for a request-line target: "index.html" for "/", otherwise the
      target before its first '?' without its first character. When that part is empty,
      request.path + 1 is the byte after the NUL written on the '?': the string there is the
      query string the loop leaves, and for an empty target it is empty
      (brr.c:45-50, brr.c:54-65, brr.c:166-170). */
  lemma RequestedFromTarget(t: string)
    requires |t| < PATH_MAX && NUL !in t
    ensures var path := TakeUntil(t, '?');
            var r := RequestedPath(SplitQuery(PathBuffer(t)).buf);
            && (path != [] ==> r == if path == "/" then INDEX_PAGE else path[1..])
            && (path == [] && '?' in t ==> r == QueryString(t[1..]))
            && (t == [] ==> r == [])
  {
    var q := SplitQuery(PathBuffer(t));
    SplitQueryMeaning(t);
    if TakeUntil(t, '?') != [] {
      RequestedPathOf(q.buf);
    } else if '?' in t {
      assert FirstIndex(t, '?') == 0;
      QueryStringCut(t);
    } else {
      assert t == [];
      EmptyTargetPath(q.buf);
    }
  }

  /** The zeroed path array of an empty target asks realpath about the empty string. */
  lemma EmptyTargetPath(p: seq<char>)
    requires p == PathBuffer([])
    ensures RequestedPath(p) == []
  {
    StrEndIs(p, 0, 0);
    StrEndIs(p, 1, 1);
  }

  /** A target `?k=...` or `?k&...`, with a key `k` of neither '&' nor '=', asks realpath
      about `k` (brr.c:49-65, brr.c:170). */
  lemma QueryKeyTarget(t: string, k: string, rest: string)
    requires |t| < PATH_MAX && NUL !in t && t == "?" + k + rest
    requires k != [] && '&' !in k && '=' !in k && rest != [] && (rest[0] == '&' || rest[0] == '=')
    ensures RequestedPath(SplitQuery(PathBuffer(t)).buf) == k
  {
    assert t[0] == '?' && t[1..] == k + rest;
    FirstIndexIs(t, '?', 0);
    assert TakeUntil(t, '?') == [];
    QueryStringOf(t[1..], k, rest);
    RequestedFromTarget(t);
  }

  /** "?a=1" asks realpath about "a". */
  lemma QueryOnlyTarget()
    ensures RequestedPath(SplitQuery(PathBuffer("?a=1")).buf) == "a"
  {
    QueryKeyTarget("?a=1", "a", "=1");
  }

  /** "?x&y" asks realpath about "x". */
  lemma QueryTokenTarget()
    ensures RequestedPath(SplitQuery(PathBuffer("?x&y")).buf) == "x"
  {
    QueryKeyTarget("?x&y", "x", "&y");
  }
}

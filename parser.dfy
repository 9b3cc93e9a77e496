/** parse_request (brr.c:36-98): one NUL-terminated read buffer becomes a Request by
    in-place string surgery.

    The functions below follow the C code step by step over the buffer contents,
    including every NUL it writes: `Parse` is the whole routine, `SplitQuery` and
    `ParamLoop` the query-string part; the header loop is module Headers. The method
    `ParseRequest` performs the same surgery on an `array<char>` and is proved to
    agree with `Parse`; what the routine computes is stated by the lemmas in
    modules ScanFacts, QueryFacts, HeaderFacts and ParseFacts. */
module Parser {
  import opened CString
  import opened Request
  import opened Headers

  /** isspace in the C locale. */
  predicate IsSpace(c: char) {
    c == ' ' || c == '\t' || c == '\n' || c == '\U{000B}' || c == '\U{000C}' || c == '\r'
  }

  /** A %s conversion first skips white space (so does a blank in the format). */
  function SkipSpace(s: seq<char>, pos: nat): (k: nat)
    requires pos <= |s|
    ensures pos <= k <= |s|
    decreases |s| - pos
  {
    if pos < |s| && IsSpace(s[pos]) then SkipSpace(s, pos + 1) else pos
  }

  /** Then it takes non-space characters until the string ends or `width` are taken. */
  function WordEnd(s: seq<char>, pos: nat, width: nat): (k: nat)
    requires pos <= |s|
    ensures pos <= k <= |s| && k - pos <= width
    decreases width
  {
    if pos < |s| && width > 0 && s[pos] != NUL && !IsSpace(s[pos]) then WordEnd(s, pos + 1, width - 1) else pos
  }

  /** The word one %<width>s conversion stores and where sscanf goes on reading.
      At the end of the input the word is empty (sscanf stops and the field keeps its zero bytes). */
  datatype Scanned = Scanned(word: string, next: nat)

  function ScanString(s: seq<char>, pos: nat, width: nat): (r: Scanned)
    requires pos <= |s|
    ensures pos <= r.next <= |s| && |r.word| <= r.next - pos && |r.word| <= width
  {
    var st := SkipSpace(s, pos);
    var en := WordEnd(s, st, width);
    Scanned(s[st..en], en)
  }

  /** HttpRequest.path after memset and sscanf: the word, then zero bytes. */
  function PathBuffer(w: string): (p: seq<char>)
    requires |w| < PATH_MAX
    ensures |p| == PATH_MAX && p[..|w|] == w
    ensures forall j :: |w| <= j < PATH_MAX ==> p[j] == NUL
  {
    w + seq(PATH_MAX - |w|, _ => NUL)
  }

  /** The path array and the parameters recorded so far. */
  datatype QueryState = QueryState(buf: seq<char>, params: seq<KeyValue>)

  /** The body of the strtok loop before the next strtok call (brr.c:56-65): the path array
      after the surgery and the pair recorded. Note that the '=' is searched from
      param_start `ps`, not from the token (brr.c:56). */
  function ParamStep(p: seq<char>, ps: nat, token: nat): (r: LineStep)
    requires ps <= |p| && token <= |p|
    ensures |r.buf| == |p|
  {
    match Strchr(p, ps, '=')
    case None => LineStep(p, None)
    case Some(eq) =>
      var p1 := p[eq := NUL];
      LineStep(p1, Some(KeyValue(CopyField(p1, token, KEY_WIDTH), CopyField(p1, eq + 1, VALUE_WIDTH))))
  }

  /** The strtok loop (brr.c:54-67), from one test of its condition on: the path array `p`,
      param_start `ps`, the current token and where strtok resumes. */
  function ParamLoop(p: seq<char>, ps: nat, token: Option<nat>, save: nat, params: seq<KeyValue>): (r: QueryState)
    requires ps <= |p| && save <= |p| && (token.Some? ==> token.value <= |p|)
    ensures |r.buf| == |p|
    decreases if token.Some? then |p| - save + 1 else 0
  {
    if token.None? || |params| >= MAX_PARAMS then QueryState(p, params)
    else
      var step := ParamStep(p, ps, token.value);
      var t := Strtok(step.buf, save, '&');
      ParamLoop(t.buf, ps, t.token, t.save, Append(params, step.pair))
  }

  /** brr.c:49-68: cut the path at its first '?' and run the strtok loop on the rest. */
  function SplitQuery(p: seq<char>): (r: QueryState)
    ensures |r.buf| == |p|
  {
    match Strchr(p, 0, '?')
    case None => QueryState(p, [])
    case Some(q) =>
      var p1 := p[q := NUL];
      var t := Strtok(p1, q + 1, '&');
      ParamLoop(t.buf, q + 1, t.token, t.save, [])
  }

  /** The request and the read buffer after parse_request. */
  datatype Parsed = Parsed(req: Request, buf: seq<char>)

  /** The three words sscanf("%9s %1023s %19s") stores: method, path and protocol. */
  datatype RequestLine = RequestLine(methodName: string, target: string, protocol: string)

  function ScanRequestLine(s: seq<char>): (r: RequestLine)
  {
    var m := ScanString(s, 0, METHOD_WIDTH);
    var t := ScanString(s, m.next, PATH_WIDTH);
    var v := ScanString(s, t.next, PROTOCOL_WIDTH);
    RequestLine(m.word, t.word, v.word)
  }

  function Parse(s: seq<char>): (r: Parsed)
    ensures |r.buf| == |s|
  {
    match FindCrlf(s, 0)
    case None => Parsed(ZeroRequest(), s)
    case Some(e) => ParseLine(s[e := NUL], e)
  }

  /** The rest of parse_request once the request line's CR at `e` is cut: the request line, the
      query string and the header block. */
  function ParseLine(s1: seq<char>, e: nat): (r: Parsed)
    requires e + 2 <= |s1|
    ensures |r.buf| == |s1|
  {
    var line := ScanRequestLine(s1);
    Assemble(s1, line, SplitQuery(PathBuffer(line.target)), HeaderBlock(s1, e + 2, 0))
  }

  /** The request from its three parts, and the buffer once the header block's NULs are written. */
  function Assemble(s1: seq<char>, line: RequestLine, q: QueryState, h: Block): (r: Parsed)
    requires h.body.Some? ==> h.body.value <= |s1|
    ensures |r.buf| == |s1|
  {
    Parsed(Request(line.methodName, q.buf, line.protocol, h.headers, q.params, h.body, BodyLen(s1, h.body)), Cut(s1, h.writes))
  }

  /** One %<width>s conversion of sscanf over the request line in `a`. */
  method ScanStringOf(a: array<char>, pos: nat, width: nat) returns (r: Scanned)
    requires pos <= a.Length
    ensures r == ScanString(a[..], pos, width)
  {
    var st := pos;
    while st < a.Length && IsSpace(a[st])
      invariant pos <= st <= a.Length
      invariant SkipSpace(a[..], st) == SkipSpace(a[..], pos)
    {
      st := st + 1;
    }
    var en := st;
    while en < a.Length && en - st < width && a[en] != NUL && !IsSpace(a[en])
      invariant st <= en <= a.Length && en - st <= width
      invariant WordEnd(a[..], en, width - (en - st)) == WordEnd(a[..], st, width)
    {
      en := en + 1;
    }
    r := Scanned(a[st..en], en);
  }

  /** brr.c:49-68 on the path array. */
  method ParseQuery(path: array<char>) returns (params: seq<KeyValue>)
    modifies path
    ensures QueryState(path[..], params) == SplitQuery(old(path[..]))
  {
    params := [];
    var q := StrchrOf(path, 0, '?');
    if q.None? {
      return;
    }
    path[q.value] := NUL;
    var ps: nat := q.value + 1;
    ghost var t0 := Strtok(path[..], ps, '&');
    var token: Option<nat>, save: nat := StrtokOf(path, ps, '&');
    ghost var goal := SplitQuery(old(path[..]));
    assert goal == ParamLoop(t0.buf, ps, t0.token, t0.save, []);
    while token.Some? && |params| < MAX_PARAMS
      invariant ps <= path.Length && save <= path.Length && (token.Some? ==> token.value <= path.Length)
      invariant ParamLoop(path[..], ps, token, save, params) == goal
      decreases if token.Some? then path.Length - save + 1 else 0
    {
      ghost var step := ParamStep(path[..], ps, token.value);
      var param := ParamStepOf(path, ps, token.value);
      assert path[..] == step.buf && param == step.pair;
      params := Append(params, param);
      ghost var t := Strtok(step.buf, save, '&');
      token, save := StrtokOf(path, save, '&');
      assert path[..] == t.buf && token == t.token && save == t.save;
    }
  }

  /** brr.c:56-65: look for '=' from param_start and record the pair. */
  method ParamStepOf(path: array<char>, ps: nat, token: nat) returns (param: Option<KeyValue>)
    requires ps <= path.Length && token <= path.Length
    modifies path
    ensures LineStep(path[..], param) == ParamStep(old(path[..]), ps, token)
  {
    var eq := StrchrOf(path, ps, '=');
    if eq.None? {
      return None;
    }
    path[eq.value] := NUL;
    var key := CopyFieldOf(path, token, KEY_WIDTH);
    var value := CopyFieldOf(path, eq.value + 1, VALUE_WIDTH);
    param := Some(KeyValue(key, value));
  }

  /** sscanf(request_string, "%9s %1023s %19s", ...) over the request line in `a`. */
  method ScanRequestLineOf(a: array<char>) returns (r: RequestLine)
    ensures r == ScanRequestLine(a[..])
  {
    var m := ScanStringOf(a, 0, METHOD_WIDTH);
    var t := ScanStringOf(a, m.next, PATH_WIDTH);
    var v := ScanStringOf(a, t.next, PROTOCOL_WIDTH);
    r := RequestLine(m.word, t.word, v.word);
  }

  /** The path array of a fresh request: the word sscanf stored, then zero bytes. */
  method NewPath(w: string) returns (path: array<char>)
    requires |w| < PATH_MAX
    ensures fresh(path) && path[..] == PathBuffer(w)
  {
    path := new char[PATH_MAX](i => if 0 <= i < |w| then w[i] else NUL);
    assert path[..] == PathBuffer(w);
  }

  /** parse_request: the returned request and the surgery on the caller's buffer are exactly Parse's. */
  method ParseRequest(buf: array<char>) returns (req: Request)
    requires NUL in buf[..]
    modifies buf
    ensures Parsed(req, buf[..]) == Parse(old(buf[..]))
  {
    ghost var s0 := buf[..];
    var e := FindCrlfOf(buf, 0);
    if e.None? {
      return ZeroRequest();
    }
    buf[e.value] := NUL;
    assert buf[..] == s0[e.value := NUL];
    req := ParseLineOf(buf, e.value);
  }

  /** parse_request after the request line's CR at `e` is cut. */
  method ParseLineOf(buf: array<char>, e: nat) returns (req: Request)
    requires e + 2 <= buf.Length
    modifies buf
    ensures Parsed(req, buf[..]) == ParseLine(old(buf[..]), e)
  {
    ghost var s1 := buf[..];
    var line, path, params := RequestLineOf(buf, s1);
    req := HeaderPart(buf, e, line, QueryState(path, params));
  }

  /** brr.c:43-68: the request line read by sscanf into a fresh request, and its query string. */
  method RequestLineOf(buf: array<char>, ghost s: seq<char>) returns (line: RequestLine, path: seq<char>, params: seq<KeyValue>)
    requires buf[..] == s
    ensures line == ScanRequestLine(s)
    ensures QueryState(path, params) == SplitQuery(PathBuffer(line.target))
    ensures buf[..] == s
  {
    line := ScanRequestLineOf(buf);
    var a := NewPath(line.target);
    params := ParseQuery(a);
    path := a[..];
  }

  /** parse_request from the header loop on, once the request line and the query string are read. */
  method HeaderPart(buf: array<char>, e: nat, line: RequestLine, q: QueryState) returns (req: Request)
    requires e + 2 <= buf.Length
    modifies buf
    ensures Parsed(req, buf[..]) == Assemble(old(buf[..]), line, q, HeaderBlock(old(buf[..]), e + 2, 0))
  {
    var headers, body, bodyLen := ParseHeaders(buf, e + 2);
    req := Request(line.methodName, q.buf, line.protocol, headers, q.params, body, bodyLen);
  }
}

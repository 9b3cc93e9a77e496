/** What parse_request (brr.c:36-98) promises about the request it returns and about the
    caller's buffer, stated over `Parse`. */
module ParseFacts {
  import opened CString
  import opened Request
  import opened Text
  import opened Headers
  import opened Parser
  import opened ScanFacts
  import opened QueryFacts
  import opened HeaderFacts

  /** A text without NUL has no NUL in any slice of it. */
  lemma SliceNoNul(x: seq<char>, i: nat, j: nat)
    requires NUL !in x && i <= j <= |x|
    ensures NUL !in x[i..j]
  {
    forall k | 0 <= k < j - i ensures x[i..j][k] != NUL {
      assert x[i..j][k] == x[i + k];
    }
  }

  /** strncpy into a field of `n` + 1 characters keeps it NUL-terminated. */
  lemma TruncateFits(x: seq<char>, n: nat)
    requires NUL !in x
    ensures FieldFits(Truncate(x, n), n)
  {
    SliceNoNul(x, 0, |Truncate(x, n)|);
    assert Truncate(x, n) == x[..|Truncate(x, n)|];
  }

  lemma FirstTokenNoNul(x: string)
    requires NUL !in x
    ensures NUL !in FirstToken(x)
  {
    var d := DropLeading(x, '&');
    SliceNoNul(x, |x| - |d|, |x|);
    var tok := FirstToken(x);
    assert tok == d[..|tok|];
    SliceNoNul(d, 0, |tok|);
  }

  lemma TokenFits(tok: string)
    requires NUL !in tok
    ensures var ps := TokenParams(tok); forall i :: 0 <= i < |ps| ==> PairFits(ps[i])
  {
    if '=' in tok {
      var i := FirstIndex(tok, '=');
      SliceNoNul(tok, 0, i);
      SliceNoNul(tok, i + 1, |tok|);
      TruncateFits(tok[..i], KEY_WIDTH);
      TruncateFits(tok[i + 1..], VALUE_WIDTH);
    }
  }

  /** The recorded parameters fit KeyValuePair (brr.c:59-63). */
  lemma ParamsFit(t: string)
    requires NUL !in t
    ensures var ps := QueryParams(t); forall i :: 0 <= i < |ps| ==> PairFits(ps[i])
  {
    if '?' in t {
      var x := t[FirstIndex(t, '?') + 1..];
      SliceNoNul(t, FirstIndex(t, '?') + 1, |t|);
      FirstTokenNoNul(x);
      TokenFits(FirstToken(x));
    }
  }

  /** The zeroed request fits its arrays. */
  lemma ZeroFits()
    ensures FitsLayout(ZeroRequest())
  {
    var z := ZeroRequest().path;
    assert z[0] == NUL;
    StrEndIs(z, 0, 0);
  }

  /** parse_request once the request line's CR at `e` is cut. */
  lemma ParseAt(s: seq<char>, e: nat)
    requires FindCrlf(s, 0) == Some(e)
    ensures e + 2 <= |s| && Parse(s) == ParseLine(s[e := NUL], e)
  {
  }

  /** The request line and the query string fit their arrays (brr.c:25-27, brr.c:45-68). */
  lemma LineFits(s1: seq<char>, e: nat)
    requires e + 2 <= |s1|
    ensures var r := ParseLine(s1, e).req;
            && FieldFits(r.methodName, METHOD_WIDTH) && FieldFits(r.protocol, PROTOCOL_WIDTH)
            && |r.path| == PATH_MAX && |PathString(r)| <= PATH_WIDTH
            && |r.params| <= MAX_PARAMS && (forall i :: 0 <= i < |r.params| ==> PairFits(r.params[i]))
  {
    var line := ScanRequestLine(s1);
    RequestLineFits(s1);
    SplitQueryMeaning(line.target);
    ParamsFit(line.target);
  }

  /** The headers fit their arrays (brr.c:28-29, brr.c:72-92). */
  lemma HeadersFitLayout(s1: seq<char>, e: nat)
    requires e + 2 <= |s1|
    ensures var r := ParseLine(s1, e).req;
            |r.headers| <= MAX_HEADERS && (forall i :: 0 <= i < |r.headers| ==> PairFits(r.headers[i]))
  {
    HeaderCount(s1, e + 2, 0);
    HeadersFit(s1, e + 2, 0);
  }

  /** Every field of the parsed request stays NUL-terminated inside its array, and the counts
      stay within their arrays. */
  lemma ParseFits(s: seq<char>)
    ensures FitsLayout(Parse(s).req)
  {
    match FindCrlf(s, 0)
    case None => ZeroFits();
    case Some(e) =>
      ParseAt(s, e);
      LineFits(s[e := NUL], e);
      HeadersFitLayout(s[e := NUL], e);
  }

  /** A position the writes changed now holds NUL and is one of them. */
  lemma CutChanged(s: seq<char>, w: seq<nat>, k: nat)
    requires k < |s| && Cut(s, w)[k] != s[k]
    ensures k in w && Cut(s, w)[k] == NUL
  {
    CutAt(s, w, k);
  }

  /** The header loop changes only the CRs of CRLFs and the first ':'s of lines, and only to
      NUL, where the header lines start after the request line's CRLF at `e`; and only on the
      lines it consumes, before the line where it stops. */
  lemma HeaderCuts(s1: seq<char>, e: nat)
    requires e + 2 <= |s1|
    ensures var h := HeaderBlock(s1, e + 2, 0);
            forall k :: 0 <= k < |s1| && Cut(s1, h.writes)[k] != s1[k] ==>
              e + 2 <= k < h.stop && Cut(s1, h.writes)[k] == NUL && LineCutAt(s1, e + 2, k)
  {
    var h := HeaderBlock(s1, e + 2, 0);
    WritesAt(s1, e + 2, 0);
    forall k | 0 <= k < |s1| && Cut(s1, h.writes)[k] != s1[k]
      ensures e + 2 <= k < h.stop && Cut(s1, h.writes)[k] == NUL && LineCutAt(s1, e + 2, k)
    {
      CutChanged(s1, h.writes, k);
      var i :| 0 <= i < |h.writes| && h.writes[i] == k;
    }
  }

  /** Where the header loop may cut, seen on the buffer before the request line's CR was cut. */
  lemma LineCutBeforeCut(s: seq<char>, e: nat, k: nat)
    requires e + 2 <= k < |s| && LineCutAt(s[e := NUL], e + 2, k)
    ensures LineCutAt(s, e + 2, k)
  {
    var s1 := s[e := NUL];
    LineStartAgree(s1, s, e + 2, k);
    if !IsCrlf(s1, k) {
      forall j | LineStart(s, e + 2, k) <= j < k ensures s[j] != ':' {
        assert s1[j] == s[j];
      }
    }
  }

  /** `b` is the buffer as read, `s`, with NUL written on the request line's CR at `e` and
      possibly on the CR of later CRLFs and on the first ':' of header lines, which start after
      the request line's CRLF and after each CRLF, and only before the line where the header
      loop stops; nowhere else. */
  predicate RequestCuts(s: seq<char>, e: nat, b: seq<char>) {
    && e + 2 <= |s| == |b| && b[e] == NUL
    && forall k :: 0 <= k < |s| && b[k] != s[k] ==>
         b[k] == NUL && (k == e || (e + 2 <= k < HeaderBlock(s, e + 2, 0).stop && LineCutAt(s, e + 2, k)))
  }

  /** The only writes parse_request makes to the caller's buffer are NULs on the request line's
      CR, on the CR of each header line's CRLF and on the first ':' of each header line
      (brr.c:44, brr.c:79, brr.c:82). Nothing changes without a request line. */
  lemma ParseOnlyCuts(s: seq<char>)
    ensures |Parse(s).buf| == |s|
    ensures FindCrlf(s, 0).None? ==> Parse(s).buf == s
    ensures FindCrlf(s, 0).Some? ==> RequestCuts(s, FindCrlf(s, 0).value, Parse(s).buf)
  {
    if FindCrlf(s, 0).Some? {
      var e := FindCrlf(s, 0).value;
      ParseParts(s, e);
      HeaderCuts(s[e := NUL], e);
      CutsBeforeCut(s, e, Parse(s).buf);
    }
  }

  /** A last line that no CRLF ends is not consumed, so its ':' is kept: for "G\r\nA:b" the
      loop stops at 'A', and no buffer that RequestCuts allows changes the ':' (brr.c:72, brr.c:95). */
  lemma TrailingLineKept(b: seq<char>)
    requires RequestCuts("G\r\nA:b" + [NUL], 1, b)
    ensures b[4] == ':'
  {
    var s := "G\r\nA:b" + [NUL];
    assert !IsCrlf(s, 3) && !IsCrlf(s, 4) && !IsCrlf(s, 5) && s[6] == NUL;
    assert FindCrlf(s, 6) == None;
    assert FindCrlf(s, 5) == None;
    assert FindCrlf(s, 4) == None;
    assert FindCrlf(s, 3) == None;
    HeaderBlockStop(s, 3, 0);
  }

  /** The header loop's writes on the cut buffer, seen on the buffer as read. */
  lemma CutsBeforeCut(s: seq<char>, e: nat, b: seq<char>)
    requires e + 2 <= |s| == |b| && IsCrlf(s, e)
    requires var s1 := s[e := NUL];
             forall k :: 0 <= k < |s| && b[k] != s1[k] ==>
               e + 2 <= k < HeaderBlock(s1, e + 2, 0).stop && b[k] == NUL && LineCutAt(s1, e + 2, k)
    ensures RequestCuts(s, e, b)
  {
    var s1 := s[e := NUL];
    assert b[e] == s1[e];
    StopAgree(s1, s, e + 2, 0);
    var stop := HeaderBlock(s, e + 2, 0).stop;
    assert HeaderBlock(s1, e + 2, 0).stop == stop;
    forall k | 0 <= k < |s| && b[k] != s[k]
      ensures b[k] == NUL && (k == e || (e + 2 <= k < stop && LineCutAt(s, e + 2, k)))
    {
      if k != e {
        assert s1[k] == s[k];
        LineCutBeforeCut(s, e, k);
      }
    }
  }

  /** With a body, the buffer from the empty line on is left as it was read. */
  lemma HeaderKeepsBody(s1: seq<char>, e: nat)
    requires e + 2 <= |s1|
    ensures var h := HeaderBlock(s1, e + 2, 0);
            h.body.Some? ==> Cut(s1, h.writes)[h.body.value - 2..] == s1[h.body.value - 2..]
  {
    var h := HeaderBlock(s1, e + 2, 0);
    WritesAt(s1, e + 2, 0);
    if h.body.Some? {
      var m := h.body.value - 2;
      forall k | m <= k < |s1| ensures Cut(s1, h.writes)[k] == s1[k] {
        CutAt(s1, h.writes, k);
        assert k !in h.writes;
      }
      assert Cut(s1, h.writes)[m..] == s1[m..];
    }
  }

  /** The header block's share of the parsed request and buffer. */
  lemma ParseParts(s: seq<char>, e: nat)
    requires FindCrlf(s, 0) == Some(e)
    ensures e + 2 <= |s| && IsCrlf(s, e)
    ensures var p := Parse(s);
            var h := HeaderBlock(s[e := NUL], e + 2, 0);
            && p.req.headers == h.headers && p.req.body == h.body
            && p.req.bodyLen == BodyLen(s[e := NUL], h.body) && p.buf == Cut(s[e := NUL], h.writes)
  {
    var s1 := s[e := NUL];
    var line := ScanRequestLine(s1);
    assert Parse(s) == ParseLine(s1, e);
    assert ParseLine(s1, e) == Assemble(s1, line, SplitQuery(PathBuffer(line.target)), HeaderBlock(s1, e + 2, 0));
  }

  /** A CRLF at or after `e + 1` reads the same before the request line's CR was cut. */
  lemma CrlfBeforeCut(s: seq<char>, e: nat, k: nat)
    requires e < |s| && e < k && IsCrlf(s[e := NUL], k)
    ensures IsCrlf(s, k)
  {
  }

  /** The body of the cut buffer, stated on the buffer as read. */
  lemma BodyBeforeCut(s: seq<char>, e: nat, b: nat)
    requires IsCrlf(s, e) && e + 4 <= b
    requires var s1 := s[e := NUL];
             IsCrlf(s1, b - 2) && (b == e + 4 || IsCrlf(s1, b - 4))
    ensures 4 <= b <= |s| && IsCrlf(s, b - 4) && IsCrlf(s, b - 2)
  {
    CrlfBeforeCut(s, e, b - 2);
    if b != e + 4 {
      CrlfBeforeCut(s, e, b - 4);
    }
  }

  /** `b` is where a body starts right after the first "\r\n\r\n" of `s`. */
  predicate AfterFirstEmptyLine(s: seq<char>, b: nat) {
    && 4 <= b <= |s| && IsCrlf(s, b - 4) && IsCrlf(s, b - 2)
    && forall k :: 0 <= k < b - 4 ==> !(IsCrlf(s, k) && IsCrlf(s, k + 2))
  }

  /** The header block's body, stated on the buffer as read. */
  lemma HeaderBody(s: seq<char>, e: nat)
    requires FindCrlf(s, 0) == Some(e)
    ensures e + 2 <= |s|
    ensures var h := HeaderBlock(s[e := NUL], e + 2, 0);
            h.body.Some? ==> AfterFirstEmptyLine(s, h.body.value) && |h.headers| < MAX_HEADERS
  {
    var s1 := s[e := NUL];
    BodyAtEmptyLine(s1, e + 2, 0);
    HeaderBodyFirst(s, e);
    var h := HeaderBlock(s1, e + 2, 0);
    if h.body.Some? {
      var b := h.body.value;
      assert IsCrlf(s1, b - 2) && (b == e + 4 || (e + 6 <= b && IsCrlf(s1, b - 4)));
      assert NoEmptyLine(s, 0, b - 4);
      BodyJoin(s, e, b);
    }
  }

  /** The empty line found on the cut buffer is the first "\r\n\r\n" of the buffer as read. */
  lemma BodyJoin(s: seq<char>, e: nat, b: nat)
    requires IsCrlf(s, e) && e + 4 <= b
    requires var s1 := s[e := NUL]; IsCrlf(s1, b - 2) && (b == e + 4 || IsCrlf(s1, b - 4))
    requires NoEmptyLine(s, 0, b - 4)
    ensures AfterFirstEmptyLine(s, b)
  {
    BodyBeforeCut(s, e, b);
  }

  /** No "\r\n\r\n" of the buffer as read starts before the header block's empty line. */
  lemma HeaderBodyFirst(s: seq<char>, e: nat)
    requires FindCrlf(s, 0) == Some(e)
    ensures e + 2 <= |s|
    ensures var h := HeaderBlock(s[e := NUL], e + 2, 0);
            h.body.Some? ==> NoEmptyLine(s, 0, h.body.value - 4)
  {
    var s1 := s[e := NUL];
    FirstEmptyLine(s1, e + 2, 0);
    var body := HeaderBlock(s1, e + 2, 0).body;
    if body.Some? {
      if IsCrlf(s1, e + 2) {
        EmptyLineNext(s1, e + 2, 0);
      }
      FirstBeforeCut(s, e, body.value);
    }
  }

  /** The request line and the header lines before `b` hold no "\r\n\r\n" of the buffer as
      read when the lines after the request line hold none of the cut buffer. */
  lemma FirstBeforeCut(s: seq<char>, e: nat, b: nat)
    requires FindCrlf(s, 0) == Some(e) && e + 4 <= b
    requires var s1 := s[e := NUL];
             && (forall k :: e + 2 <= k < b - 4 ==> !(IsCrlf(s1, k) && IsCrlf(s1, k + 2)))
             && (IsCrlf(s1, e + 2) ==> b == e + 4)
    ensures NoEmptyLine(s, 0, b - 4)
  {
    var s1 := s[e := NUL];
    FindCrlfFacts(s, 0);
    forall k | 0 <= k < b - 4 ensures !(IsCrlf(s, k) && IsCrlf(s, k + 2)) {
      if e + 2 <= k && IsCrlf(s, k) && IsCrlf(s, k + 2) {
        assert IsCrlf(s1, k) && IsCrlf(s1, k + 2);
      }
    }
  }

  /** `body` is set only right after the first "\r\n\r\n" of the buffer as read, while fewer
      than MAX_HEADERS headers were recorded (brr.c:72-77). */
  lemma ParseBody(s: seq<char>)
    ensures var r := Parse(s).req;
            r.body.Some? ==> AfterFirstEmptyLine(s, r.body.value) && |r.headers| < MAX_HEADERS
  {
    if FindCrlf(s, 0).Some? {
      var e := FindCrlf(s, 0).value;
      ParseParts(s, e);
      HeaderBody(s, e);
    }
  }

  /** Conversely, the first "\r\n\r\n" before the terminator gives the body right after it,
      unless MAX_HEADERS headers were recorded before it (brr.c:72-77). */
  lemma ParseFindsBody(s: seq<char>, d: nat)
    requires IsCrlf(s, d) && IsCrlf(s, d + 2)
    requires forall j :: 0 <= j < d ==> s[j] != NUL
    requires forall k :: 0 <= k < d ==> !(IsCrlf(s, k) && IsCrlf(s, k + 2))
    ensures var r := Parse(s).req; r.body == Some(d + 4) || |r.headers| == MAX_HEADERS
  {
    var e := LineEndBefore(s, 0, d);
    ParseParts(s, e);
    HeaderFindsBody(s, e, d);
  }

  /** The header block reaches the empty line at `d + 2` unless it records MAX_HEADERS headers. */
  lemma HeaderFindsBody(s: seq<char>, e: nat, d: nat)
    requires e <= d && IsCrlf(s, e) && IsCrlf(s, d) && IsCrlf(s, d + 2)
    requires forall j :: 0 <= j < d ==> s[j] != NUL
    requires forall k :: 0 <= k < d ==> !(IsCrlf(s, k) && IsCrlf(s, k + 2))
    ensures var h := HeaderBlock(s[e := NUL], e + 2, 0); h.body == Some(d + 4) || |h.headers| == MAX_HEADERS
  {
    EmptyLineAfterCut(s, e, d);
    EmptyLineFound(s[e := NUL], e + 2, 0, d + 2);
  }

  /** The first "\r\n\r\n" at `d`, seen on the buffer once the request line's CR at `e` is
      cut: the empty line at `d + 2` is the first one after the request line. */
  lemma EmptyLineAfterCut(s: seq<char>, e: nat, d: nat)
    requires e <= d && IsCrlf(s, e) && IsCrlf(s, d) && IsCrlf(s, d + 2)
    requires forall j :: 0 <= j < d ==> s[j] != NUL
    requires forall k :: 0 <= k < d ==> !(IsCrlf(s, k) && IsCrlf(s, k + 2))
    ensures var s1 := s[e := NUL];
            && e + 2 <= d + 2 && IsCrlf(s1, d + 2)
            && (d + 2 == e + 2 || (e + 4 <= d + 2 && IsCrlf(s1, d) && !IsCrlf(s1, e + 2)))
            && NulFree(s1, e + 2, d + 2)
            && NoEmptyLine(s1, e + 2, d)
  {
    var s1 := s[e := NUL];
    forall j | e + 2 <= j <= d + 2 ensures s1[j] != NUL {
      assert s1[j] == s[j];
    }
    forall k | e + 2 <= k < d ensures !(IsCrlf(s1, k) && IsCrlf(s1, k + 2)) {
      assert s1[k..k + 4] == s[k..k + 4];
      assert !(IsCrlf(s, k) && IsCrlf(s, k + 2));
    }
    if d != e {
      assert s[e + 1] == '\n' && s[d] == '\r';
      assert e + 2 <= d;
      assert !(IsCrlf(s, e) && IsCrlf(s, e + 2));
    }
  }

  /** The string at the body of the cut buffer is the one read. */
  lemma BodyTextBeforeCut(s: seq<char>, e: nat, b: nat, t: seq<char>)
    requires e + 4 <= b <= |s| && |t| == |s| && t[b - 2..] == s[e := NUL][b - 2..]
    ensures CStr(t, b) == CStr(s, b) && StrEnd(s[e := NUL], b) == StrEnd(s, b)
  {
    var s1 := s[e := NUL];
    assert s1[b - 2..] == s[b - 2..];
    AgreeSuffix(t, s, b - 2, b);
    AgreeSuffix(s1, s, b - 2, b);
  }

  /** The header block's body text, stated on the buffer as read. */
  lemma HeaderBodyText(s: seq<char>, e: nat)
    requires e + 2 <= |s| && IsCrlf(s, e)
    ensures var s1 := s[e := NUL];
            var h := HeaderBlock(s1, e + 2, 0);
            && (h.body.None? ==> BodyLen(s1, h.body) == 0)
            && (h.body.Some? ==>
                  var k := h.body.value;
                  && 2 <= k <= |s| && CStr(Cut(s1, h.writes), k) == CStr(s, k) && BodyLen(s1, h.body) == |CStr(s, k)|)
  {
    var s1 := s[e := NUL];
    HeaderKeepsBody(s1, e);
    BodyAtEmptyLine(s1, e + 2, 0);
    var h := HeaderBlock(s1, e + 2, 0);
    if h.body.Some? {
      BodyTextBeforeCut(s, e, h.body.value, Cut(s1, h.writes));
    }
  }

  /** The body is not touched: the string at the body is the one read, body_len is its length,
      and no body means body_len 0 (brr.c:75-76). */
  lemma ParseKeepsBody(s: seq<char>)
    ensures var p := Parse(s);
            && (p.req.body.None? ==> p.req.bodyLen == 0)
            && (p.req.body.Some? ==>
                  var k := p.req.body.value;
                  && 2 <= k <= |s| && CStr(p.buf, k) == CStr(s, k) && p.req.bodyLen == |CStr(s, k)|)
  {
    if FindCrlf(s, 0).Some? {
      var e := FindCrlf(s, 0).value;
      ParseParts(s, e);
      HeaderBodyText(s, e);
    }
  }

  /** Equal tails from `m` give equal strings at any later start. */
  lemma AgreeSuffix(t: seq<char>, s: seq<char>, m: nat, k: nat)
    requires m <= k <= |s| == |t| && t[m..] == s[m..]
    ensures CStr(t, k) == CStr(s, k) && StrEnd(t, k) == StrEnd(s, k)
  {
    forall j | k <= j < |s| ensures t[j] == s[j] {
      assert t[m..][j - m] == s[m..][j - m];
    }
    StrEndIs(t, k, StrEnd(s, k));
  }

  /** handle_client reads at most 1023 bytes and stores a NUL after them, so body_len stays below
      the buffer size (brr.c:148-157). */
  lemma BodyLenBound(s: seq<char>)
    requires |s| <= BUFFER_SIZE
    ensures Parse(s).req.bodyLen < BUFFER_SIZE
  {
    ParseKeepsBody(s);
  }
}

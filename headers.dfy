/** The header loop of parse_request (brr.c:70-96).

    `HeaderBlock` says what the loop computes over the bytes as they were read:
    the pair of each line, the positions it overwrites with NUL and where the
    body starts. The methods perform the loop in place on an `array<char>`, as
    the C code does, and are proved to compute `HeaderBlock`; the window lemmas
    carry the meaning of a line across the NULs the surgery writes. */
module Headers {
  import opened CString
  import opened Request
  import opened Text

  /** The pair one header line stands for: the text before its first ':' and the text after it
      with leading blanks (' ' only) skipped, each cut to its field; None for a line without ':'. */
  function LinePair(line: seq<char>): Option<KeyValue> {
    if ':' in line then
      var c := FirstIndex(line, ':');
      Some(KeyValue(Truncate(line[..c], KEY_WIDTH), Truncate(DropLeading(line[c + 1..], ' '), VALUE_WIDTH)))
    else None
  }

  /** Where the loop writes NUL for the line [hls, nl): its CR and its first ':'. */
  function LineWrites(hls: nat, line: seq<char>): (w: seq<nat>)
    ensures forall i :: 0 <= i < |w| ==> hls <= w[i] <= hls + |line|
  {
    [hls + |line|] + (if ':' in line then [hls + FirstIndex(line, ':')] else [])
  }

  /** The header block from `from`, once `count` headers are recorded: the headers, the
      positions overwritten with NUL, where the body starts, and header_line_start when the
      loop stops. */
  datatype Block = Block(headers: seq<KeyValue>, writes: seq<nat>, body: Option<nat>, stop: nat)

  function HeaderBlock(s: seq<char>, from: nat, count: nat): (b: Block)
    requires from <= |s|
    ensures b.body.Some? ==> from + 2 <= b.body.value <= |s|
    decreases |s| - from, 1
  {
    match FindCrlf(s, from)
    case None => Block([], [], None, from)
    case Some(nl) =>
      if count >= MAX_HEADERS then Block([], [], None, from)
      else if nl == from then Block([], [], Some(from + 2), from)
      else LineBlock(s, from, nl, count)
  }

  /** The block from the non-empty line [from, nl): its part, then the rest of the block. */
  function LineBlock(s: seq<char>, from: nat, nl: nat, count: nat): (b: Block)
    requires from < nl && from <= |s| && FindCrlf(s, from) == Some(nl)
    ensures b.body.Some? ==> from + 2 <= b.body.value <= |s|
    decreases |s| - from, 0
  {
    var pair := LinePair(s[from..nl]);
    var rest := HeaderBlock(s, nl + 2, if pair.Some? then count + 1 else count);
    Block(Append([], pair) + rest.headers, LineWrites(from, s[from..nl]) + rest.writes, rest.body, rest.stop)
  }

  /** The buffer `s` with NUL written at every position in `w`. */
  function Cut(s: seq<char>, w: seq<nat>): (r: seq<char>)
    ensures |r| == |s|
    decreases |w|
  {
    if w == [] then s
    else
      var t := Cut(s, w[..|w| - 1]);
      var p := w[|w| - 1];
      if p < |t| then t[p := NUL] else t
  }

  /** A position holds NUL after the writes if it is one of them, and its old byte otherwise. */
  lemma {:induction false} CutAt(s: seq<char>, w: seq<nat>, k: nat)
    requires k < |s|
    ensures Cut(s, w)[k] == if k in w then NUL else s[k]
    decreases |w|
  {
    if w != [] {
      var u := w[..|w| - 1];
      CutAt(s, u, k);
      assert w == u + [w[|w| - 1]];
      assert (k in w) == (k in u || k == w[|w| - 1]);
    }
  }

  /** Writing NUL at `w` and then at `v` is writing NUL at `w + v`. */
  lemma {:induction false} CutTwice(s: seq<char>, w: seq<nat>, v: seq<nat>)
    ensures Cut(Cut(s, w), v) == Cut(s, w + v)
    decreases |v|
  {
    if v == [] {
      assert w + v == w;
    } else {
      CutTwice(s, w, v[..|v| - 1]);
      assert (w + v)[..|w + v| - 1] == w + v[..|v| - 1];
    }
  }

  /** strlen(body), or 0 when no body was found. */
  function BodyLen(s: seq<char>, body: Option<nat>): nat
    requires body.Some? ==> body.value <= |s|
  {
    if body.Some? then StrEnd(s, body.value) - body.value else 0
  }

  /** Position `j` of `x` sits at `a + j` in `t`. */
  predicate Holds(t: seq<char>, a: nat, x: seq<char>, j: nat) {
    a + j < |t| && j < |x| && t[a + j] == x[j]
  }

  /** A window of `t` at `a` that holds `x` and then a terminator: the string at `a` is `x`. */
  predicate Window(t: seq<char>, a: nat, x: seq<char>) {
    && a + |x| <= |t|
    && (forall j: nat :: j < |x| ==> Holds(t, a, x, j))
    && NUL !in x
    && (a + |x| < |t| ==> t[a + |x|] == NUL)
  }

  lemma WindowStr(t: seq<char>, a: nat, x: seq<char>)
    requires Window(t, a, x)
    ensures CStr(t, a) == x
  {
    forall j | a <= j < a + |x| ensures t[j] == x[j - a] {
      assert Holds(t, a, x, j - a);
    }
    StrEndIs(t, a, a + |x|);
    assert t[a..a + |x|] == x;
  }

  lemma WindowStrchr(t: seq<char>, a: nat, x: seq<char>, c: char)
    requires Window(t, a, x) && c != NUL
    ensures Strchr(t, a, c) == if c in x then Some(a + FirstIndex(x, c)) else None
  {
    forall j | a <= j < a + |x| ensures t[j] == x[j - a] {
      assert Holds(t, a, x, j - a);
    }
    if c in x {
      StrchrIs(t, a, c, a + FirstIndex(x, c));
    } else {
      WindowStr(t, a, x);
    }
  }

  lemma WindowSuffix(t: seq<char>, a: nat, x: seq<char>, n: nat)
    requires Window(t, a, x) && n <= |x|
    ensures Window(t, a + n, x[n..])
  {
    var b, y := a + n, x[n..];
    forall j: nat | j < |y| ensures Holds(t, b, y, j) {
      assert Holds(t, a, x, n + j);
    }
  }

  lemma WindowSkip(t: seq<char>, a: nat, x: seq<char>, c: char)
    requires Window(t, a, x) && c != NUL
    ensures SkipChar(t, a, c) == a + |x| - |DropLeading(x, c)|
    ensures Window(t, SkipChar(t, a, c), DropLeading(x, c))
  {
    var d := DropLeading(x, c);
    var n := |x| - |d|;
    forall j | a <= j < a + n ensures t[j] == c {
      assert Holds(t, a, x, j - a);
    }
    if n < |x| {
      assert Holds(t, a, x, n);
      assert x[n] == d[0];
    }
    SkipCharIs(t, a, c, a + n);
    WindowSuffix(t, a, x, n);
  }

  /** Cutting a NUL into a window splits it into two windows. */
  lemma WindowCut(t: seq<char>, a: nat, x: seq<char>, i: nat)
    requires Window(t, a, x) && i < |x|
    ensures Window(t[a + i := NUL], a, x[..i])
    ensures Window(t[a + i := NUL], a + i + 1, x[i + 1..])
  {
    var t1 := t[a + i := NUL];
    forall j: nat | j < i ensures Holds(t1, a, x[..i], j) {
      assert Holds(t, a, x, j);
    }
    var b, y := a + i + 1, x[i + 1..];
    forall j: nat | j < |y| ensures Holds(t1, b, y, j) {
      assert Holds(t, a, x, i + 1 + j);
    }
  }

  /** The line a CRLF search found, once its CR is cut, is a window of the buffer. */
  lemma LineWindow(s0: seq<char>, s: seq<char>, hls: nat, nl: nat)
    requires hls <= |s| && AgreeFrom(s, s0, hls)
    requires FindCrlf(s0, hls) == Some(nl)
    ensures Window(s[nl := NUL], hls, s0[hls..nl])
  {
    var line := s0[hls..nl];
    forall j: nat | j < |line| ensures Holds(s[nl := NUL], hls, line, j) && line[j] != NUL {
      assert s0[hls + j] == line[j];
    }
  }

  /** The pair of a line, once both its fields are known. */
  lemma LinePairIs(x: seq<char>, i: nat, key: string, value: string)
    requires ':' in x && i == FirstIndex(x, ':')
    requires key == Truncate(x[..i], KEY_WIDTH) && value == Truncate(DropLeading(x[i + 1..], ' '), VALUE_WIDTH)
    ensures LinePair(x) == Some(KeyValue(key, value))
  {
  }

  /** The line `line` at `hls`, as read followed by its CR, with its surgery done: NUL on the CR
      and on the first ':'. */
  function LineCut(s: seq<char>, hls: nat, line: seq<char>): (r: seq<char>)
    requires hls + |line| < |s|
    ensures |r| == |s|
  {
    var s1 := s[hls + |line| := NUL];
    if ':' in line then s1[hls + FirstIndex(line, ':') := NUL] else s1
  }

  lemma LineCutColon(s: seq<char>, hls: nat, line: seq<char>, i: nat)
    requires hls + |line| < |s| && ':' in line && i == FirstIndex(line, ':')
    ensures LineCut(s, hls, line) == s[hls + |line| := NUL][hls + i := NUL]
  {
  }

  lemma LineCutPlain(s: seq<char>, hls: nat, line: seq<char>)
    requires hls + |line| < |s| && ':' !in line
    ensures LineCut(s, hls, line) == s[hls + |line| := NUL]
  {
  }

  /** The surgery of one line is writing NUL at the line's writes. */
  lemma LineCutIsCut(s: seq<char>, hls: nat, line: seq<char>)
    requires hls + |line| < |s|
    ensures LineCut(s, hls, line) == Cut(s, LineWrites(hls, line))
  {
    if ':' in line {
      CutTwo(s, hls + |line|, hls + FirstIndex(line, ':'));
    } else {
      CutOne(s, hls + |line|);
    }
  }

  /** One NUL written. */
  lemma CutOne(s: seq<char>, a: nat)
    requires a < |s|
    ensures s[a := NUL] == Cut(s, [a])
  {
    assert [a][..0] == [];
  }

  /** Two NULs written one after the other. */
  lemma CutTwo(s: seq<char>, a: nat, b: nat)
    requires a < |s| && b < |s|
    ensures s[a := NUL][b := NUL] == Cut(s, [a, b])
  {
    CutOne(s, a);
    assert [a, b][..1] == [a];
  }

  /** The key: the window cut at `i`. */
  lemma WindowKey(t: seq<char>, a: nat, x: seq<char>, i: nat)
    requires Window(t, a, x) && i < |x|
    ensures CopyField(t[a + i := NUL], a, KEY_WIDTH) == Truncate(x[..i], KEY_WIDTH)
  {
    WindowCut(t, a, x, i);
    WindowStr(t[a + i := NUL], a, x[..i]);
  }

  /** The value: the rest of the window after `i`, blanks skipped. */
  lemma WindowValue(t: seq<char>, a: nat, x: seq<char>, i: nat)
    requires Window(t, a, x) && i < |x|
    ensures var t1 := t[a + i := NUL];
            CopyField(t1, SkipChar(t1, a + i + 1, ' '), VALUE_WIDTH) == Truncate(DropLeading(x[i + 1..], ' '), VALUE_WIDTH)
  {
    var t1 := t[a + i := NUL];
    WindowCut(t, a, x, i);
    WindowSkip(t1, a + i + 1, x[i + 1..], ' ');
    WindowStr(t1, SkipChar(t1, a + i + 1, ' '), DropLeading(x[i + 1..], ' '));
  }

  /** One turn of the reference walk: this line's part, then the rest of the block. */
  lemma HeaderBlockTurn(s: seq<char>, from: nat, nl: nat, count: nat, pair: Option<KeyValue>, next: nat)
    requires from < nl && from <= |s| && FindCrlf(s, from) == Some(nl) && count < MAX_HEADERS
    requires pair == LinePair(s[from..nl]) && next == (if pair.Some? then count + 1 else count)
    ensures nl + 2 <= |s|
    ensures var b := HeaderBlock(s, from, count);
            var rest := HeaderBlock(s, nl + 2, next);
            && b.headers == Append([], pair) + rest.headers
            && b.writes == LineWrites(from, s[from..nl]) + rest.writes
            && b.body == rest.body
            && b.stop == rest.stop
  {
  }

  /** brr.c:79-92: cut one header line in place and record its pair if it has a ':'.
      The buffer gains NUL on the line's CR and first ':' and nothing else. */
  method HeaderLineOf(buf: array<char>, hls: nat, nl: nat) returns (header: Option<KeyValue>)
    requires hls < nl && hls <= buf.Length && FindCrlf(buf[..], hls) == Some(nl)
    modifies buf
    ensures header == LinePair(old(buf[..])[hls..nl])
    ensures buf[..] == LineCut(old(buf[..]), hls, old(buf[..])[hls..nl])
  {
    ghost var s := buf[..];
    ghost var line := s[hls..nl];
    buf[nl] := NUL;
    assert buf[..] == s[hls + |line| := NUL];
    LineWindow(s, s, hls, nl);
    WindowStrchr(buf[..], hls, line, ':');
    var colon := StrchrOf(buf, hls, ':');
    if colon.None? {
      assert ':' !in line;
      LineCutPlain(s, hls, line);
      return None;
    }
    ghost var t := buf[..];
    assert t == s[nl := NUL];
    ghost var i := colon.value - hls;
    assert ':' in line && i == FirstIndex(line, ':');
    buf[colon.value] := NUL;
    ghost var t1 := t[hls + i := NUL];
    assert buf[..] == t1;
    LineCutColon(s, hls, line, i);
    WindowKey(t, hls, line, i);
    WindowValue(t, hls, line, i);
    var vs := SkipCharOf(buf, colon.value + 1, ' ');
    assert vs == SkipChar(t1, hls + i + 1, ' ');
    var key := CopyFieldOf(buf, hls, KEY_WIDTH);
    var value := CopyFieldOf(buf, vs, VALUE_WIDTH);
    assert value == CopyField(t1, vs, VALUE_WIDTH);
    LinePairIs(line, i, key, value);
    header := Some(KeyValue(key, value));
  }

  /** What parse_request ends with: the headers, the buffer and the body. */
  datatype Outcome = Outcome(headers: seq<KeyValue>, buf: seq<char>, body: Option<nat>)

  /** The outcome once the block `rest` still ahead is done, with `headers` recorded so far and
      the buffer `cur`. */
  function Finish(headers: seq<KeyValue>, cur: seq<char>, rest: Block): Outcome {
    Outcome(headers + rest.headers, Cut(cur, rest.writes), rest.body)
  }

  /** Before the first line: nothing recorded, the buffer as read. */
  lemma FinishStart(s0: seq<char>, from: nat)
    requires from <= |s0|
    ensures var b := HeaderBlock(s0, from, 0); Finish([], s0, b) == Outcome(b.headers, Cut(s0, b.writes), b.body)
  {
    assert [] + HeaderBlock(s0, from, 0).headers == HeaderBlock(s0, from, 0).headers;
  }

  /** Moving one line's part of the block ahead into what is done. */
  lemma FinishMove(cur: seq<char>, headers: seq<KeyValue>, pair: Option<KeyValue>, v: seq<nat>, b: Block, rest: Block)
    requires b.headers == Append([], pair) + rest.headers && b.writes == v + rest.writes && b.body == rest.body
    ensures Finish(Append(headers, pair), Cut(cur, v), rest) == Finish(headers, cur, b)
  {
    assert Append(headers, pair) + rest.headers == headers + (Append([], pair) + rest.headers);
    CutTwice(cur, v, rest.writes);
  }

  /** One turn on a non-empty line: its pair is recorded and its NULs are written on `cur`,
      giving `next`; the outcome ahead stays the same. */
  lemma FinishStep(s0: seq<char>, cur: seq<char>, next: seq<char>, hls: nat, nl: nat,
                   headers: seq<KeyValue>, pair: Option<KeyValue>)
    requires hls < nl && hls <= |s0| && FindCrlf(s0, hls) == Some(nl) && |headers| < MAX_HEADERS
    requires pair == LinePair(s0[hls..nl]) && next == Cut(cur, LineWrites(hls, s0[hls..nl]))
    ensures nl + 2 <= |s0|
    ensures Finish(Append(headers, pair), next, HeaderBlock(s0, nl + 2, |Append(headers, pair)|))
         == Finish(headers, cur, HeaderBlock(s0, hls, |headers|))
  {
    var n := |Append(headers, pair)|;
    assert n == if pair.Some? then |headers| + 1 else |headers|;
    HeaderBlockTurn(s0, hls, nl, |headers|, pair, n);
    FinishMove(cur, headers, pair, LineWrites(hls, s0[hls..nl]), HeaderBlock(s0, hls, |headers|), HeaderBlock(s0, nl + 2, n));
  }

  /** When the loop stops, nothing is left ahead. */
  lemma FinishDone(s0: seq<char>, cur: seq<char>, hls: nat, headers: seq<KeyValue>)
    requires hls <= |s0|
    requires FindCrlf(s0, hls).None? || |headers| >= MAX_HEADERS || FindCrlf(s0, hls) == Some(hls)
    ensures Finish(headers, cur, HeaderBlock(s0, hls, |headers|))
         == Outcome(headers, cur, if FindCrlf(s0, hls) == Some(hls) && |headers| < MAX_HEADERS then Some(hls + 2) else None)
  {
    var b := HeaderBlock(s0, hls, |headers|);
    assert b.headers == [] && b.writes == [];
    assert headers + b.headers == headers;
  }

  /** Every position in `w` lies before `n`. */
  predicate Below(w: seq<nat>, n: nat) {
    forall i :: 0 <= i < |w| ==> w[i] < n
  }

  /** NULs written before `n` leave the buffer from `n` on as it was. */
  lemma {:induction false} CutAgree(s: seq<char>, w: seq<nat>, n: nat)
    requires Below(w, n)
    ensures AgreeFrom(Cut(s, w), s, n)
    decreases |w|
  {
    if w != [] {
      CutAgree(s, w[..|w| - 1], n);
    }
  }

  /** Agreement from `n` on carries over to a later start. */
  lemma AgreeLater(s: seq<char>, t: seq<char>, u: seq<char>, m: nat, n: nat)
    requires m <= n && AgreeFrom(s, t, n) && AgreeFrom(t, u, m)
    ensures AgreeFrom(s, u, n)
  {
  }

  /** One turn of the header loop on a non-empty line of the buffer as read, `s0`: the
      line's pair, and its NULs written on the buffer. */
  method HeaderTurn(buf: array<char>, ghost s0: seq<char>, hls: nat, nl: nat) returns (header: Option<KeyValue>)
    requires hls < nl && hls <= |s0| == buf.Length && FindCrlf(s0, hls) == Some(nl)
    requires AgreeFrom(buf[..], s0, hls)
    modifies buf
    ensures header == LinePair(s0[hls..nl])
    ensures buf[..] == Cut(old(buf[..]), LineWrites(hls, s0[hls..nl]))
    ensures nl + 2 <= buf.Length && AgreeFrom(buf[..], s0, nl + 2)
  {
    ghost var cur := buf[..];
    FindCrlfAgree(cur, s0, hls);
    assert cur[hls..nl] == s0[hls..nl];
    header := HeaderLineOf(buf, hls, nl);
    LineCutIsCut(cur, hls, s0[hls..nl]);
    CutAgree(cur, LineWrites(hls, s0[hls..nl]), nl + 2);
    AgreeLater(buf[..], cur, s0, hls, nl + 2);
  }

  /** The loop body on a non-empty line: the outcome of the rest of the loop does not change. */
  method LoopTurn(buf: array<char>, ghost s0: seq<char>, headers: seq<KeyValue>, hls: nat, nl: nat)
    returns (headers': seq<KeyValue>, hls': nat, nl': Option<nat>)
    requires hls < nl && hls <= |s0| == buf.Length && FindCrlf(s0, hls) == Some(nl) && |headers| < MAX_HEADERS
    requires AgreeFrom(buf[..], s0, hls)
    modifies buf
    ensures hls < hls' <= buf.Length
    ensures nl' == FindCrlf(s0, hls')
    ensures AgreeFrom(buf[..], s0, hls')
    ensures Finish(headers', buf[..], HeaderBlock(s0, hls', |headers'|)) == Finish(headers, old(buf[..]), HeaderBlock(s0, hls, |headers|))
  {
    ghost var cur := buf[..];
    var header := HeaderTurn(buf, s0, hls, nl);
    FinishStep(s0, cur, buf[..], hls, nl, headers, header);
    headers' := Append(headers, header);
    hls' := nl + 2;
    FindCrlfAgree(buf[..], s0, hls');
    nl' := FindCrlf(buf[..], hls');
  }

  /** brr.c:70-96 on the read buffer, from the line after the request line: the headers, the
      body and the buffer the loop leaves are those of HeaderBlock over the buffer as it was. */
  method ParseHeaders(buf: array<char>, from: nat) returns (headers: seq<KeyValue>, body: Option<nat>, bodyLen: nat)
    requires from <= buf.Length
    modifies buf
    ensures var b := HeaderBlock(old(buf[..]), from, 0);
            && headers == b.headers && body == b.body && bodyLen == BodyLen(old(buf[..]), b.body)
            && buf[..] == Cut(old(buf[..]), b.writes)
  {
    ghost var s0 := buf[..];
    ghost var goal := Finish([], s0, HeaderBlock(s0, from, 0));
    headers, body, bodyLen := [], None, 0;
    var hls := from;
    var nl := FindCrlfOf(buf, hls);
    FinishStart(s0, from);
    while nl.Some? && |headers| < MAX_HEADERS
      invariant from <= hls <= buf.Length
      invariant nl == FindCrlf(s0, hls)
      invariant AgreeFrom(buf[..], s0, hls)
      invariant Finish(headers, buf[..], HeaderBlock(s0, hls, |headers|)) == goal
      invariant body == None && bodyLen == 0
      decreases buf.Length - hls
    {
      if hls == nl.value {
        // the empty line: the body starts after it
        body := Some(hls + 2);
        SpanToAgree(buf[..], s0, hls + 2, NUL);
        var e := StrEndOf(buf, hls + 2);
        bodyLen := e - (hls + 2);
        break;
      }
      headers, hls, nl := LoopTurn(buf, s0, headers, hls, nl.value);
    }
    FinishDone(s0, buf[..], hls, headers);
  }
}

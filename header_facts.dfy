/** What the header loop of parse_request (brr.c:70-96) computes, stated over `HeaderBlock`:
    the bound on the header count, the fields that fit their arrays, where the body may start
    and where the loop writes its NULs. */
module HeaderFacts {
  import opened CString
  import opened Request
  import opened Text
  import opened Headers

  /** The line a CRLF search finds holds no NUL. */
  lemma LineNoNul(s: seq<char>, from: nat, nl: nat)
    requires from <= |s| && FindCrlf(s, from) == Some(nl)
    ensures NUL !in s[from..nl]
  {
    forall j | 0 <= j < nl - from ensures s[from..nl][j] != NUL {
      assert s[from..nl][j] == s[from + j];
    }
  }

  /** A line without NUL gives a pair whose fields fit their arrays. */
  lemma LinePairFits(line: seq<char>)
    requires NUL !in line
    ensures LinePair(line).Some? ==> PairFits(LinePair(line).value)
  {
    if ':' in line {
      var c := FirstIndex(line, ':');
      var k := line[..c];
      var v := DropLeading(line[c + 1..], ' ');
      assert forall i :: 0 <= i < |k| ==> k[i] == line[i];
      assert forall i :: 0 <= i < |v| ==> v[i] == line[c + 1 + |line[c + 1..]| - |v| + i];
      assert Truncate(k, KEY_WIDTH) <= k && Truncate(v, VALUE_WIDTH) <= v;
    }
  }

  /** The loop stops at the end of the string, at MAX_HEADERS, or at an empty line. */
  lemma HeaderBlockStop(s: seq<char>, from: nat, count: nat)
    requires from <= |s|
    requires FindCrlf(s, from).None? || count >= MAX_HEADERS || FindCrlf(s, from) == Some(from)
    ensures var b := HeaderBlock(s, from, count);
            && b.headers == [] && b.writes == [] && b.stop == from
            && b.body == if FindCrlf(s, from) == Some(from) && count < MAX_HEADERS then Some(from + 2) else None
  {
  }

  /** One non-empty line adds one header when it has a ':'. */
  lemma CountTurn(s: seq<char>, from: nat, nl: nat, count: nat, pair: Option<KeyValue>, next: nat)
    requires from < nl && from <= |s| && FindCrlf(s, from) == Some(nl) && count < MAX_HEADERS
    requires pair == LinePair(s[from..nl]) && next == (if pair.Some? then count + 1 else count)
    ensures nl + 2 <= |s|
    ensures count + |HeaderBlock(s, from, count).headers| == next + |HeaderBlock(s, nl + 2, next).headers|
  {
    HeaderBlockTurn(s, from, nl, count, pair, next);
  }

  /** One step of the block from `from`: either the loop stops there, or it consumes the
      non-empty line ending at `nl` and goes on from `nl + 2` with `next` headers counted. */
  lemma BlockStep(s: seq<char>, from: nat, count: nat) returns (nl: Option<nat>, next: nat)
    requires from <= |s|
    ensures var b := HeaderBlock(s, from, count);
            && (nl.None? ==>
                  && (FindCrlf(s, from).None? || count >= MAX_HEADERS || FindCrlf(s, from) == Some(from))
                  && b.headers == [] && b.writes == [] && b.stop == from
                  && b.body == if FindCrlf(s, from) == Some(from) && count < MAX_HEADERS then Some(from + 2) else None)
            && (nl.Some? ==>
                  && from < nl.value && nl.value + 2 <= |s| && FindCrlf(s, from) == nl && count < MAX_HEADERS
                  && count <= next <= count + 1
                  && next == (if LinePair(s[from..nl.value]).Some? then count + 1 else count)
                  && var rest := HeaderBlock(s, nl.value + 2, next);
                     && count + |b.headers| == next + |rest.headers|
                     && b.body == rest.body && b.stop == rest.stop)
  {
    var f := FindCrlf(s, from);
    if f.None? || count >= MAX_HEADERS || f == Some(from) {
      nl, next := None, count;
      HeaderBlockStop(s, from, count);
    } else {
      var e;
      e, next := BlockTurn(s, from, count);
      nl := Some(e);
    }
  }

  /** The step on a non-empty line met below MAX_HEADERS. */
  lemma BlockTurn(s: seq<char>, from: nat, count: nat) returns (nl: nat, next: nat)
    requires from <= |s| && FindCrlf(s, from).Some? && FindCrlf(s, from) != Some(from) && count < MAX_HEADERS
    ensures from < nl && nl + 2 <= |s| && FindCrlf(s, from) == Some(nl)
    ensures count <= next <= count + 1
    ensures next == if LinePair(s[from..nl]).Some? then count + 1 else count
    ensures var b := HeaderBlock(s, from, count);
            var rest := HeaderBlock(s, nl + 2, next);
            count + |b.headers| == next + |rest.headers| && b.body == rest.body && b.stop == rest.stop
  {
    nl := FindCrlf(s, from).value;
    var pair := LinePair(s[from..nl]);
    next := if pair.Some? then count + 1 else count;
    CountTurn(s, from, nl, count, pair, next);
    HeaderBlockTurn(s, from, nl, count, pair, next);
  }

  /** header_count never passes MAX_HEADERS (brr.c:72). */
  lemma {:induction false} HeaderCount(s: seq<char>, from: nat, count: nat)
    requires from <= |s| && count <= MAX_HEADERS
    ensures count + |HeaderBlock(s, from, count).headers| <= MAX_HEADERS
    decreases |s| - from
  {
    var nl, next := BlockStep(s, from, count);
    if nl.Some? {
      HeaderCount(s, nl.value + 2, next);
    }
  }

  /** Every recorded header fits KeyValuePair: key at most 49 and value at most 499 characters,
      no NUL inside (brr.c:87-91). */
  lemma {:induction false} HeadersFit(s: seq<char>, from: nat, count: nat)
    requires from <= |s|
    ensures var h := HeaderBlock(s, from, count).headers; forall i :: 0 <= i < |h| ==> PairFits(h[i])
    decreases |s| - from
  {
    match FindCrlf(s, from)
    case None =>
    case Some(nl) =>
      if count < MAX_HEADERS && nl != from {
        var pair := LinePair(s[from..nl]);
        var next := if pair.Some? then count + 1 else count;
        HeadersFit(s, nl + 2, next);
        LineNoNul(s, from, nl);
        LinePairFits(s[from..nl]);
        HeaderBlockTurn(s, from, nl, count, pair, next);
      }
  }

  /** The body is set only at an empty line met while header_count < MAX_HEADERS: it starts
      just after a CRLF that opens the block or follows another CRLF, and the lines consumed
      before it hold no "\r\n\r\n", so it is the first empty line (brr.c:72-77). */
  lemma BodyAfterEmptyLine(s: seq<char>, from: nat, count: nat)
    requires from <= |s|
    ensures var b := HeaderBlock(s, from, count);
            b.body.Some? ==>
              && count + |b.headers| < MAX_HEADERS
              && IsCrlf(s, b.body.value - 2)
              && (b.body.value == from + 2 || (from + 4 <= b.body.value && IsCrlf(s, b.body.value - 4)))
              && (forall k :: from <= k < b.body.value - 4 ==> !(IsCrlf(s, k) && IsCrlf(s, k + 2)))
  {
    BodyAtEmptyLine(s, from, count);
    FirstEmptyLine(s, from, count);
  }

  /** The body starts right after an empty line met while header_count < MAX_HEADERS. */
  lemma {:induction false} BodyAtEmptyLine(s: seq<char>, from: nat, count: nat)
    requires from <= |s|
    ensures var b := HeaderBlock(s, from, count);
            b.body.Some? ==>
              && count + |b.headers| < MAX_HEADERS
              && IsCrlf(s, b.body.value - 2)
              && (b.body.value == from + 2 || (from + 4 <= b.body.value && IsCrlf(s, b.body.value - 4)))
    decreases |s| - from
  {
    var nl, next := BlockStep(s, from, count);
    if nl.Some? {
      BodyAtEmptyLine(s, nl.value + 2, next);
    }
  }

  /** No NUL at a position of [lo, hi]. */
  predicate NulFree(s: seq<char>, lo: nat, hi: int) {
    forall j :: lo <= j <= hi ==> j < |s| && s[j] != NUL
  }

  /** No "\r\n\r\n" starts at a position of [lo, hi). */
  predicate NoEmptyLine(s: seq<char>, lo: nat, hi: int) {
    forall k :: lo <= k < hi ==> !(IsCrlf(s, k) && IsCrlf(s, k + 2))
  }

  /** No "\r\n\r\n" starts in the lines consumed before the body's empty line. */
  lemma {:induction false} FirstEmptyLine(s: seq<char>, from: nat, count: nat)
    requires from <= |s|
    ensures var b := HeaderBlock(s, from, count);
            b.body.Some? ==> NoEmptyLine(s, from, b.body.value - 4)
    decreases |s| - from
  {
    var nl, next := BlockStep(s, from, count);
    if nl.Some? {
      FirstEmptyLine(s, nl.value + 2, next);
      var body := HeaderBlock(s, nl.value + 2, next).body;
      if body.Some? {
        if IsCrlf(s, nl.value + 2) {
          EmptyLineNext(s, nl.value + 2, next);
        }
        NoEmptyLineJoin(s, from, nl.value, body.value);
      }
    }
  }

  /** A block that opens with an empty line has its body right after it, unless the count is
      already at MAX_HEADERS. */
  lemma EmptyLineNext(s: seq<char>, from: nat, count: nat)
    requires from <= |s| && IsCrlf(s, from)
    ensures HeaderBlock(s, from, count).body == if count < MAX_HEADERS then Some(from + 2) else None
  {
    FindCrlfIs(s, from, from);
    HeaderBlockStop(s, from, count);
  }

  /** A consumed line and the CRLF after it hold no "\r\n\r\n" before `b`, unless the
      next line is empty and `b` comes right after it; so the property extends to the line. */
  lemma NoEmptyLineJoin(s: seq<char>, from: nat, nl: nat, b: nat)
    requires from < nl && from <= |s| && FindCrlf(s, from) == Some(nl)
    requires IsCrlf(s, nl + 2) ==> b == nl + 4
    requires NoEmptyLine(s, nl + 2, b - 4)
    ensures NoEmptyLine(s, from, b - 4)
  {
    FindCrlfFacts(s, from);
  }

  /** Conversely, the loop reaches the first empty line `m` unless it records MAX_HEADERS headers
      first: then `body` starts right after it (brr.c:72-77). The lines from `from` up to `m`
      hold no NUL and no "\r\n\r\n". */
  lemma {:induction false} EmptyLineFound(s: seq<char>, from: nat, count: nat, m: nat)
    requires from <= m && IsCrlf(s, m) && count <= MAX_HEADERS
    requires m == from || (from + 2 <= m && IsCrlf(s, m - 2) && !IsCrlf(s, from))
    requires NulFree(s, from, m)
    requires NoEmptyLine(s, from, m - 2)
    ensures ReachesBody(s, from, count, m)
    decreases m - from
  {
    var nl, next := FoundStep(s, from, count, m);
    if nl.Some? {
      EmptyLineFound(s, nl.value + 2, next, m);
    }
  }

  /** The loop started at `from` with `count` headers sets the body right after the empty line at
      `m`, or records MAX_HEADERS headers. */
  predicate ReachesBody(s: seq<char>, from: nat, count: nat, m: nat)
    requires from <= |s|
  {
    var b := HeaderBlock(s, from, count);
    b.body == Some(m + 2) || count + |b.headers| == MAX_HEADERS
  }

  /** One turn of the loop before the first empty line `m`: it stops at `m` or at MAX_HEADERS, or
      it consumes a line, and the next line starts with the same facts about `m`. */
  lemma FoundStep(s: seq<char>, from: nat, count: nat, m: nat) returns (nl: Option<nat>, next: nat)
    requires from <= m && IsCrlf(s, m) && count <= MAX_HEADERS
    requires m == from || (from + 2 <= m && IsCrlf(s, m - 2) && !IsCrlf(s, from))
    requires NulFree(s, from, m)
    requires NoEmptyLine(s, from, m - 2)
    ensures nl.None? ==> ReachesBody(s, from, count, m)
    ensures nl.Some? ==>
              && from < nl.value && nl.value + 2 <= m && next <= MAX_HEADERS
              && (m == nl.value + 2 || (nl.value + 4 <= m && IsCrlf(s, m - 2) && !IsCrlf(s, nl.value + 2)))
              && NulFree(s, nl.value + 2, m)
              && NoEmptyLine(s, nl.value + 2, m - 2)
              && (ReachesBody(s, nl.value + 2, next, m) ==> ReachesBody(s, from, count, m))
  {
    var e := LineEndBefore(s, from, m);
    nl, next := BlockStep(s, from, count);
    if nl.Some? {
      assert nl.value == e;
      NextLineBefore(s, from, e, m);
    } else if count < MAX_HEADERS {
      assert e == from && m == from;
    }
  }

  /** A non-empty line ending at `e` before the first empty line `m` leaves the next line with the
      same facts about `m`. */
  lemma NextLineBefore(s: seq<char>, from: nat, e: nat, m: nat)
    requires from < e <= m && IsCrlf(s, e) && IsCrlf(s, m)
    requires forall k :: from <= k < e ==> !IsCrlf(s, k)
    requires m == from || (from + 2 <= m && IsCrlf(s, m - 2) && !IsCrlf(s, from))
    requires NulFree(s, from, m)
    requires NoEmptyLine(s, from, m - 2)
    ensures e + 2 <= m
    ensures m == e + 2 || (e + 4 <= m && IsCrlf(s, m - 2) && !IsCrlf(s, e + 2))
    ensures NulFree(s, e + 2, m)
    ensures NoEmptyLine(s, e + 2, m - 2)
  {
    assert e != m by {
      assert !IsCrlf(s, m - 2) || m - 2 >= e;
    }
  }

  /** With a CRLF at `m` and no NUL up to it, strstr finds a CRLF at or before `m`. */
  lemma LineEndBefore(s: seq<char>, from: nat, m: nat) returns (nl: nat)
    requires from <= m && IsCrlf(s, m) && NulFree(s, from, m)
    ensures FindCrlf(s, from) == Some(nl) && nl <= m
    ensures forall k :: from <= k < nl ==> !IsCrlf(s, k)
  {
    FindCrlfFacts(s, from);
    nl := FindCrlf(s, from).value;
  }

  /** The start of the line holding `k`, for lines that begin at `lo` and after each CRLF: the
      last position at or before `k` that is `lo` or follows a CRLF that lies at or after `lo`. */
  function LineStart(s: seq<char>, lo: nat, k: nat): (p: nat)
    requires lo <= k
    ensures lo <= p <= k
    decreases k - lo
  {
    if k == lo then lo
    else if k >= lo + 2 && IsCrlf(s, k - 2) then k
    else LineStart(s, lo, k - 1)
  }

  /** `k` holds the first ':' of its line. */
  predicate FirstColonOfLine(s: seq<char>, lo: nat, k: nat)
    requires lo <= k
  {
    k < |s| && s[k] == ':' && forall j :: LineStart(s, lo, k) <= j < k ==> s[j] != ':'
  }

  /** Where the header loop may write NUL: the CR of a CRLF, or the first ':' of a line. */
  predicate LineCutAt(s: seq<char>, lo: nat, k: nat)
    requires lo <= k
  {
    IsCrlf(s, k) || FirstColonOfLine(s, lo, k)
  }

  /** A line that starts at `hls` and has no CRLF before `k` still holds `k`. */
  lemma {:induction false} LineStartIs(s: seq<char>, lo: nat, hls: nat, k: nat)
    requires lo <= hls <= k
    requires hls == lo || (lo + 2 <= hls && IsCrlf(s, hls - 2))
    requires forall j :: hls <= j < k - 1 ==> !IsCrlf(s, j)
    ensures LineStart(s, lo, k) == hls
    decreases k - hls
  {
    if k > hls {
      LineStartIs(s, lo, hls, k - 1);
    }
  }

  /** Lines counted from a later line start `m` are the same lines. */
  lemma {:induction false} LineStartLater(s: seq<char>, lo: nat, m: nat, k: nat)
    requires lo + 2 <= m <= k && IsCrlf(s, m - 2)
    ensures LineStart(s, lo, k) == LineStart(s, m, k)
    decreases k - m
  {
    if k > m && !(k >= m + 2 && IsCrlf(s, k - 2)) {
      LineStartLater(s, lo, m, k - 1);
    }
  }

  /** A place the loop may cut, seen from a later line start, is one seen from an earlier one. */
  lemma LineCutLater(s: seq<char>, lo: nat, m: nat, k: nat)
    requires lo + 2 <= m <= k && IsCrlf(s, m - 2) && LineCutAt(s, m, k)
    ensures LineCutAt(s, lo, k)
  {
    LineStartLater(s, lo, m, k);
  }

  /** Lines are found the same way in buffers that agree from `lo` on. */
  lemma {:induction false} LineStartAgree(s: seq<char>, t: seq<char>, lo: nat, k: nat)
    requires AgreeFrom(s, t, lo) && lo <= k
    ensures LineStart(s, lo, k) == LineStart(t, lo, k)
    decreases k - lo
  {
    if k > lo {
      LineStartAgree(s, t, lo, k - 1);
    }
  }

  /** The loop stops at a line start for one of its three reasons: no CRLF is found there,
      MAX_HEADERS headers are recorded, or the line is empty, and then the body follows it
      (brr.c:72-77, brr.c:94-95). */
  lemma {:induction false} StopFacts(s: seq<char>, from: nat, count: nat)
    requires from <= |s|
    ensures var b := HeaderBlock(s, from, count);
            && from <= b.stop <= |s|
            && (b.stop == from || (from + 2 <= b.stop && IsCrlf(s, b.stop - 2)))
            && (FindCrlf(s, b.stop).None? || count + |b.headers| >= MAX_HEADERS || FindCrlf(s, b.stop) == Some(b.stop))
            && (b.body.Some? <==> FindCrlf(s, b.stop) == Some(b.stop) && count + |b.headers| < MAX_HEADERS)
            && (b.body.Some? ==> b.body.value == b.stop + 2)
    decreases |s| - from
  {
    var nl, next := BlockStep(s, from, count);
    if nl.Some? {
      StopFacts(s, nl.value + 2, next);
    }
  }

  /** The loop started at `from` with `count` headers reaches header_line_start `p` with
      header_count `c`: it is there already, or it consumes the non-empty line at `from` below
      MAX_HEADERS and reaches `p` from the next line (brr.c:72, brr.c:92-95). */
  predicate Visits(s: seq<char>, from: nat, count: nat, p: nat, c: nat)
    requires from <= |s|
    decreases |s| - from
  {
    if p <= from then p == from && c == count
    else
      match FindCrlf(s, from)
      case None => false
      case Some(nl) =>
        && count < MAX_HEADERS && nl != from
        && Visits(s, nl + 2, if LinePair(s[from..nl]).Some? then count + 1 else count, p, c)
  }

  /** `stop` is the first line start at which the loop exits: the loop reaches it with all the
      headers recorded, and at every line start it reaches before it, it finds a CRLF that ends
      a non-empty line and has fewer than MAX_HEADERS headers. So no NUL lies before `stop`
      (brr.c:72-73, brr.c:94-95). */
  lemma {:induction false} StopFirst(s: seq<char>, from: nat, count: nat)
    requires from <= |s|
    ensures StopIsFirst(s, from, count)
    decreases |s| - from
  {
    if FindCrlf(s, from).None? || count >= MAX_HEADERS || FindCrlf(s, from) == Some(from) {
      FirstAtStop(s, from, count);
    } else {
      var e, next := FirstTurn(s, from, count);
      StopFirst(s, e + 2, next);
    }
  }

  /** So `stop` is the only line start the loop reaches at which it exits, and it gets there
      with all the headers recorded (brr.c:72-77, brr.c:94-95). */
  lemma StopUnique(s: seq<char>, from: nat, count: nat, p: nat, c: nat)
    requires from <= |s| && Visits(s, from, count, p, c) && p <= |s|
    requires FindCrlf(s, p).None? || c >= MAX_HEADERS || FindCrlf(s, p) == Some(p)
    ensures var b := HeaderBlock(s, from, count);
            p == b.stop && c == count + |b.headers|
  {
    var b := HeaderBlock(s, from, count);
    StopFirst(s, from, count);
    StopFacts(s, from, count);
    if p > b.stop {
      VisitsPast(s, from, count, b.stop, count + |b.headers|, p, c);
    }
    VisitsCount(s, from, count, p, c, count + |b.headers|);
  }

  /** A line start the loop reaches before another one it reaches is one where it goes on. */
  lemma {:induction false} VisitsPast(s: seq<char>, from: nat, count: nat, q: nat, d: nat, p: nat, c: nat)
    requires from <= |s| && Visits(s, from, count, q, d) && Visits(s, from, count, p, c) && q < p <= |s|
    ensures FindCrlf(s, q).Some? && q < FindCrlf(s, q).value && d < MAX_HEADERS
    decreases |s| - from
  {
    if q > from {
      var nl := FindCrlf(s, from).value;
      VisitsPast(s, nl + 2, if LinePair(s[from..nl]).Some? then count + 1 else count, q, d, p, c);
    }
  }

  /** The loop reaches a line start with one header count only. */
  lemma {:induction false} VisitsCount(s: seq<char>, from: nat, count: nat, p: nat, c: nat, d: nat)
    requires from <= |s| && Visits(s, from, count, p, c) && Visits(s, from, count, p, d)
    ensures c == d
    decreases |s| - from
  {
    if p > from {
      var nl := FindCrlf(s, from).value;
      VisitsCount(s, nl + 2, if LinePair(s[from..nl]).Some? then count + 1 else count, p, c, d);
    }
  }

  /** What StopFirst states about the loop from `from` with `count` headers. */
  ghost predicate StopIsFirst(s: seq<char>, from: nat, count: nat)
    requires from <= |s|
  {
    var b := HeaderBlock(s, from, count);
    FirstFacts(s, from, count, b.stop, count + |b.headers|)
  }

  /** The loop from `from` with `count` headers reaches `stop` with `c` headers, it continues at
      every line start it reaches before `stop`, and no NUL lies before `stop`. */
  ghost predicate FirstFacts(s: seq<char>, from: nat, count: nat, stop: nat, c: nat)
    requires from <= |s|
  {
    && from <= stop <= |s|
    && Visits(s, from, count, stop, c)
    && ContinuesBefore(s, from, count, stop)
    && NulFree(s, from, stop - 1)
  }

  /** At every line start before `stop` that the loop reaches from `from`, it finds a CRLF that
      ends a non-empty line and has fewer than MAX_HEADERS headers. */
  ghost predicate ContinuesBefore(s: seq<char>, from: nat, count: nat, stop: nat)
    requires from <= |s|
  {
    forall p: nat, c: nat :: Visits(s, from, count, p, c) && p < stop <= |s| ==>
      FindCrlf(s, p).Some? && p < FindCrlf(s, p).value && c < MAX_HEADERS
  }

  /** Where the loop stops at once, `stop` is `from` and is reached with no header recorded. */
  lemma FirstAtStop(s: seq<char>, from: nat, count: nat)
    requires from <= |s|
    requires FindCrlf(s, from).None? || count >= MAX_HEADERS || FindCrlf(s, from) == Some(from)
    ensures StopIsFirst(s, from, count)
  {
    HeaderBlockStop(s, from, count);
    assert Visits(s, from, count, from, count);
  }

  /** Where the loop consumes the line at `from`, the facts from the next line give those from
      `from`. */
  lemma FirstTurn(s: seq<char>, from: nat, count: nat) returns (e: nat, next: nat)
    requires from <= |s| && FindCrlf(s, from).Some? && FindCrlf(s, from) != Some(from) && count < MAX_HEADERS
    ensures from < e && e + 2 <= |s|
    ensures StopIsFirst(s, e + 2, next) ==> StopIsFirst(s, from, count)
  {
    e, next := BlockTurn(s, from, count);
    var rest := HeaderBlock(s, e + 2, next);
    if StopIsFirst(s, e + 2, next) {
      FirstJoin(s, from, count, e, next, rest.stop, next + |rest.headers|);
    }
  }

  /** The loop consumes the non-empty line [from, e) and goes on from `e + 2` with `next` headers:
      what holds of `stop` from `e + 2` holds from `from`. */
  lemma FirstJoin(s: seq<char>, from: nat, count: nat, e: nat, next: nat, stop: nat, c: nat)
    requires from < e && from <= |s| && FindCrlf(s, from) == Some(e) && count < MAX_HEADERS
    requires next == (if LinePair(s[from..e]).Some? then count + 1 else count)
    requires FirstFacts(s, e + 2, next, stop, c)
    ensures FirstFacts(s, from, count, stop, c)
  {
    VisitsJoin(s, from, count, e, next, stop, c);
    ContinuesJoin(s, from, count, e, next, stop);
    forall j | from <= j < e + 2 ensures j < |s| && s[j] != NUL {
      assert j < StrEnd(s, from);
    }
  }

  lemma VisitsJoin(s: seq<char>, from: nat, count: nat, e: nat, next: nat, p: nat, c: nat)
    requires from < e && from <= |s| && FindCrlf(s, from) == Some(e) && count < MAX_HEADERS
    requires next == (if LinePair(s[from..e]).Some? then count + 1 else count)
    requires e + 2 <= p
    requires Visits(s, e + 2, next, p, c)
    ensures Visits(s, from, count, p, c)
  {
  }

  lemma ContinuesJoin(s: seq<char>, from: nat, count: nat, e: nat, next: nat, stop: nat)
    requires from < e && from <= |s| && FindCrlf(s, from) == Some(e) && count < MAX_HEADERS
    requires next == (if LinePair(s[from..e]).Some? then count + 1 else count)
    requires e + 2 <= stop <= |s|
    requires ContinuesBefore(s, e + 2, next, stop)
    ensures ContinuesBefore(s, from, count, stop)
  {
    forall p: nat, c: nat | Visits(s, from, count, p, c) && p < stop <= |s|
      ensures FindCrlf(s, p).Some? && p < FindCrlf(s, p).value && c < MAX_HEADERS
    {
      if p > from {
        assert Visits(s, e + 2, next, p, c);
      }
    }
  }

  /** The loop writes NUL only on the CR of a CRLF or on the first ':' of a line, where lines
      start at `from` and after each CRLF, and only on the lines it consumes: never before
      `from`, never from the line where it stops on, so in particular before the body's empty
      line (brr.c:79, brr.c:82, brr.c:94). */
  lemma WritesAt(s: seq<char>, from: nat, count: nat)
    requires from <= |s|
    ensures var b := HeaderBlock(s, from, count);
            && (forall i :: 0 <= i < |b.writes| ==> from <= b.writes[i] < |s| && LineCutAt(s, from, b.writes[i]))
            && (forall i :: 0 <= i < |b.writes| ==> b.writes[i] < b.stop)
            && (b.body.Some? ==> forall i :: 0 <= i < |b.writes| ==> b.writes[i] < b.body.value - 2)
  {
    WritesOnLines(s, from, count);
    WritesBeforeBody(s, from, count);
    WritesBeforeEnd(s, from, count);
  }

  /** Every write lies before the line where the loop stops. */
  lemma {:induction false} WritesBeforeEnd(s: seq<char>, from: nat, count: nat)
    requires from <= |s|
    ensures var b := HeaderBlock(s, from, count); from <= b.stop && Below(b.writes, b.stop)
    decreases |s| - from
  {
    var nl, next := BlockStep(s, from, count);
    if nl.Some? {
      var e := nl.value;
      WritesBeforeEnd(s, e + 2, next);
      HeaderBlockTurn(s, from, e, count, LinePair(s[from..e]), next);
      LineWritesAt(s, from, e);
      var rest := HeaderBlock(s, e + 2, next);
      BelowJoin(LineWrites(from, s[from..e]), rest.writes, e, rest.stop);
    }
  }

  /** The loop stops at the same line in buffers that agree from `from` on. */
  lemma {:induction false} StopAgree(s: seq<char>, t: seq<char>, from: nat, count: nat)
    requires from <= |s| && AgreeFrom(s, t, from)
    ensures SameStop(s, t, from, count)
    decreases |s| - from
  {
    var nl, next := AgreeStep(s, t, from, count);
    if nl.Some? {
      StopAgree(s, t, nl.value + 2, next);
    }
  }

  /** The loops over `s` and `t` from `from` stop at the same line. */
  predicate SameStop(s: seq<char>, t: seq<char>, from: nat, count: nat)
    requires from <= |s| && from <= |t|
  {
    HeaderBlock(s, from, count).stop == HeaderBlock(t, from, count).stop
  }

  /** One turn over buffers that agree from `from` on: both stop at `from`, or both consume
      the same line and go on with the same count. */
  lemma AgreeStep(s: seq<char>, t: seq<char>, from: nat, count: nat) returns (nl: Option<nat>, next: nat)
    requires from <= |s| && AgreeFrom(s, t, from)
    ensures nl.None? ==> SameStop(s, t, from, count)
    ensures nl.Some? ==>
              && from < nl.value && nl.value + 2 <= |s| && AgreeFrom(s, t, nl.value + 2)
              && (SameStop(s, t, nl.value + 2, next) ==> SameStop(s, t, from, count))
  {
    FindCrlfAgree(s, t, from);
    var next';
    nl, next := BlockStep(s, from, count);
    var nl';
    nl', next' := BlockStep(t, from, count);
    assert nl == nl';
    if nl.Some? {
      SliceAgree(s, t, from, nl.value);
      assert LinePair(s[from..nl.value]) == LinePair(t[from..nl.value]);
    }
  }

  /** Buffers that agree from `from` on hold the same characters in [from, to). */
  lemma SliceAgree(s: seq<char>, t: seq<char>, from: nat, to: nat)
    requires from <= to <= |s| && AgreeFrom(s, t, from)
    ensures s[from..to] == t[from..to]
  {
  }

  /** Every position in `w` is one the loop may cut, for lines from `lo`. */
  predicate WritesOn(s: seq<char>, lo: nat, w: seq<nat>) {
    forall i :: 0 <= i < |w| ==> lo <= w[i] < |s| && LineCutAt(s, lo, w[i])
  }

  lemma {:induction false} WritesOnLines(s: seq<char>, from: nat, count: nat)
    requires from <= |s|
    ensures WritesOn(s, from, HeaderBlock(s, from, count).writes)
    decreases |s| - from
  {
    match FindCrlf(s, from)
    case None =>
    case Some(nl) =>
      if count < MAX_HEADERS && nl != from {
        var pair := LinePair(s[from..nl]);
        var next := if pair.Some? then count + 1 else count;
        WritesOnLines(s, nl + 2, next);
        HeaderBlockTurn(s, from, nl, count, pair, next);
        LineWritesAt(s, from, nl);
        WritesJoin(s, from, nl, LineWrites(from, s[from..nl]), HeaderBlock(s, nl + 2, next).writes);
      }
  }

  /** A line's writes followed by those of the lines after its CRLF. */
  lemma WritesJoin(s: seq<char>, from: nat, nl: nat, w: seq<nat>, r: seq<nat>)
    requires from <= nl && IsCrlf(s, nl) && WritesOn(s, from, w) && WritesOn(s, nl + 2, r)
    ensures WritesOn(s, from, w + r)
  {
    forall i | 0 <= i < |w + r| ensures from <= (w + r)[i] < |s| && LineCutAt(s, from, (w + r)[i]) {
      if i >= |w| {
        assert (w + r)[i] == r[i - |w|];
        LineCutLater(s, from, nl + 2, r[i - |w|]);
      } else {
        assert (w + r)[i] == w[i];
      }
    }
  }

  /** With a body, every write lies before its empty line. */
  lemma {:induction false} WritesBeforeBody(s: seq<char>, from: nat, count: nat)
    requires from <= |s|
    ensures var b := HeaderBlock(s, from, count); b.body.Some? ==> Below(b.writes, b.body.value - 2)
    decreases |s| - from
  {
    match FindCrlf(s, from)
    case None =>
    case Some(nl) =>
      if count < MAX_HEADERS && nl != from {
        var line := s[from..nl];
        var pair := LinePair(line);
        var next := if pair.Some? then count + 1 else count;
        WritesBeforeBody(s, nl + 2, next);
        HeaderBlockTurn(s, from, nl, count, pair, next);
        LineWritesAt(s, from, nl);
        var rest := HeaderBlock(s, nl + 2, next);
        if rest.body.Some? {
          BelowJoin(LineWrites(from, line), rest.writes, nl, rest.body.value - 2);
        }
      }
  }

  lemma BelowJoin(w: seq<nat>, r: seq<nat>, nl: nat, n: nat)
    requires nl < n && (forall i :: 0 <= i < |w| ==> w[i] <= nl) && Below(r, n)
    ensures Below(w + r, n)
  {
    forall i | 0 <= i < |w + r| ensures (w + r)[i] < n {
      if i >= |w| {
        assert (w + r)[i] == r[i - |w|];
      } else {
        assert (w + r)[i] == w[i];
      }
    }
  }

  /** The writes of one line land on its CR and on its first ':'. */
  lemma LineWritesAt(s: seq<char>, from: nat, nl: nat)
    requires from <= |s| && FindCrlf(s, from) == Some(nl)
    ensures var w := LineWrites(from, s[from..nl]);
            forall i :: 0 <= i < |w| ==> from <= w[i] <= nl && LineCutAt(s, from, w[i])
  {
    var line := s[from..nl];
    if ':' in line {
      var c := FirstIndex(line, ':');
      FindCrlfFacts(s, from);
      LineStartIs(s, from, from, from + c);
      forall j | from <= j < from + c ensures s[j] != ':' {
        assert s[j] == line[j - from];
      }
      assert s[from + c] == line[c];
    }
  }

  /** A line without ':' is skipped: nothing is recorded for it and only its CR is cut
      (brr.c:80-93). */
  lemma LineWithoutColon(s: seq<char>, from: nat, nl: nat, count: nat)
    requires from < nl && from <= |s| && FindCrlf(s, from) == Some(nl) && count < MAX_HEADERS
    requires ':' !in s[from..nl]
    ensures var b := HeaderBlock(s, from, count);
            var rest := HeaderBlock(s, nl + 2, count);
            b.headers == rest.headers && b.body == rest.body && b.writes == [nl] + rest.writes
  {
    var line := s[from..nl];
    assert LinePair(line) == None;
    assert LineWrites(from, line) == [nl];
    HeaderBlockTurn(s, from, nl, count, None, count);
    assert Append([], None) + HeaderBlock(s, nl + 2, count).headers == HeaderBlock(s, nl + 2, count).headers;
  }

  /** The pair of a line `key: value`: the key is all before the first ':', and the value is
      what follows the run of blanks after it (brr.c:80-91). */
  lemma LineKeyValue(key: string, blanks: string, value: string)
    requires ':' !in key && |key| <= KEY_WIDTH && |value| <= VALUE_WIDTH
    requires (forall i :: 0 <= i < |blanks| ==> blanks[i] == ' ') && (value != [] ==> value[0] != ' ')
    ensures LinePair(key + ":" + blanks + value) == Some(KeyValue(key, value))
  {
    assert key + ":" + blanks + value == key + [':'] + (blanks + value);
    FirstIndexAfter(key, ':', blanks + value);
    DropLeadingRun(blanks, ' ', value);
  }

  /** "X-Test:   value" gives the pair (X-Test, value). */
  lemma XTestHeader()
    ensures LinePair("X-Test:   value") == Some(KeyValue("X-Test", "value"))
  {
    assert "X-Test:   value" == "X-Test" + ":" + "   " + "value";
    LineKeyValue("X-Test", "   ", "value");
  }
}

/** What the query-string code of parse_request (brr.c:49-68) computes.

    Because brr.c:56 searches for '=' from `param_start` rather than from the token,
    every search after the first one stops at the NUL left where the first '=' was
    (or at the end of the first token): at most one parameter is ever recorded,
    and it comes from the first '&'-separated token. */
module QueryFacts {
  import opened CString
  import opened Request
  import opened Text
  import opened Headers
  import opened Parser

  /** The parameters the code records for the path word `t`, stated over the word itself:
      the first '&'-token after the first '?', split at its first '=', if it has one. */
  function QueryParams(t: string): (r: seq<KeyValue>)
    ensures |r| <= 1
  {
    if '?' in t then TokenParams(FirstToken(t[FirstIndex(t, '?') + 1..])) else []
  }

  /** The pair of one token split at its first '=', each side cut to its field; none without '='. */
  function TokenParams(tok: string): seq<KeyValue> {
    if '=' in tok then
      var i := FirstIndex(tok, '=');
      [KeyValue(Truncate(tok[..i], KEY_WIDTH), Truncate(tok[i + 1..], VALUE_WIDTH))]
    else []
  }

  /** The first token strtok(query, "&") returns: leading separators skipped, up to the next one. */
  function FirstToken(x: string): (tok: string)
    ensures '&' !in tok
  {
    TakeUntil(DropLeading(x, '&'), '&')
  }

  /** Only NULs were written going from `s` to `t`. */
  predicate OnlyNuls(s: seq<char>, t: seq<char>) {
    |s| == |t| && forall j :: 0 <= j < |s| && t[j] != s[j] ==> t[j] == NUL
  }

  /** strtok writes at most one NUL, at or after where it starts. */
  lemma StrtokWrites(s: seq<char>, from: nat, c: char)
    requires from <= |s| && c != NUL
    ensures var t := Strtok(s, from, c); OnlyNuls(s, t.buf) && t.buf[..from] == s[..from]
  {
    StrtokFacts(s, from, c);
  }

  /** A search for a non-NUL character that succeeds after NULs were written succeeded before,
      at the same place: the NULs can only end the string earlier. */
  lemma StrchrKept(s: seq<char>, t: seq<char>, from: nat, c: char)
    requires from <= |s| && c != NUL && OnlyNuls(s, t)
    ensures Strchr(t, from, c).Some? ==> Strchr(s, from, c) == Strchr(t, from, c)
  {
    if Strchr(t, from, c).Some? {
      var k := Strchr(t, from, c).value;
      forall j | from <= j <= k ensures s[j] == t[j] {
        assert t[j] != NUL;
      }
      StrchrIs(s, from, c, k);
    }
  }

  /** Once the search from `ps` finds no '=', the loop records nothing more. */
  lemma {:induction false} ParamLoopIdle(p: seq<char>, ps: nat, token: Option<nat>, save: nat, params: seq<KeyValue>)
    requires ps <= |p| && save <= |p| && (token.Some? ==> token.value <= |p|)
    requires Strchr(p, ps, '=').None?
    ensures ParamLoop(p, ps, token, save, params).params == params
    decreases if token.Some? then |p| - save + 1 else 0
  {
    if token.Some? && |params| < MAX_PARAMS {
      var t := Strtok(p, save, '&');
      StrtokWrites(p, save, '&');
      StrchrKept(p, t.buf, ps, '=');
      ParamLoopIdle(t.buf, ps, t.token, t.save, params);
    }
  }

  /** The loop writes nothing before `ps`. */
  lemma {:induction false} ParamLoopKeeps(p: seq<char>, ps: nat, token: Option<nat>, save: nat, params: seq<KeyValue>)
    requires ps <= save <= |p| && (token.Some? ==> token.value <= |p|)
    ensures ParamLoop(p, ps, token, save, params).buf[..ps] == p[..ps]
    decreases if token.Some? then |p| - save + 1 else 0
  {
    if token.Some? && |params| < MAX_PARAMS {
      var step := ParamStep(p, ps, token.value);
      assert step.buf[..ps] == p[..ps];
      var t := Strtok(step.buf, save, '&');
      StrtokWrites(step.buf, save, '&');
      assert t.buf[..ps] == t.buf[..save][..ps];
      ParamLoopKeeps(t.buf, ps, t.token, t.save, Append(params, step.pair));
    }
  }

  /** strcspn over a window: the text before the first `c`. */
  lemma WindowSpan(t: seq<char>, a: nat, x: seq<char>, c: char)
    requires Window(t, a, x) && c != NUL
    ensures SpanTo(t, a, c) == a + |TakeUntil(x, c)|
  {
    var u := TakeUntil(x, c);
    forall j | a <= j < a + |u| ensures t[j] != c && t[j] != NUL {
      assert Holds(t, a, x, j - a);
      assert x[j - a] == u[j - a];
    }
    if a + |u| < a + |x| {
      assert Holds(t, a, x, |u|);
    }
    SpanToIs(t, a, c, a + |u|);
  }

  /** The search from `ps` over a window that is a run of '&' followed by the token `tok`. */
  lemma SearchPastRun(p: seq<char>, ps: nat, st: nat, tok: string)
    requires ps <= st && Window(p, st, tok)
    requires forall j :: ps <= j < st ==> p[j] == '&'
    ensures Strchr(p, ps, '=') == if '=' in tok then Some(st + FirstIndex(tok, '=')) else None
  {
    forall j | st <= j < st + |tok| ensures p[j] == tok[j - st] {
      assert Holds(p, st, tok, j - st);
    }
    if '=' in tok {
      StrchrIs(p, ps, '=', st + FirstIndex(tok, '='));
    } else {
      StrEndIs(p, ps, st + |tok|);
    }
  }

  /** The loop body on the first token when its first '=' is at `st + i`: the pair is the text
      before it and the text after it, each cut to its field. */
  lemma ParamStepAt(p2: seq<char>, ps: nat, st: nat, tok: string, i: nat)
    requires ps <= st && Window(p2, st, tok) && '=' in tok && i == FirstIndex(tok, '=')
    requires Strchr(p2, ps, '=') == Some(st + i)
    ensures ParamStep(p2, ps, st)
         == LineStep(p2[st + i := NUL], Some(KeyValue(Truncate(tok[..i], KEY_WIDTH), Truncate(tok[i + 1..], VALUE_WIDTH))))
  {
    var p3 := p2[st + i := NUL];
    WindowKey(p2, st, tok, i);
    WindowCut(p2, st, tok, i);
    WindowStr(p3, st + i + 1, tok[i + 1..]);
  }

  /** The loop from its first test on, with the first token `tok` cut out at `st` and a run
      of '&' between param_start and it. */
  lemma FirstTurn(p2: seq<char>, ps: nat, st: nat, save: nat, tok: string)
    requires ps <= st && st + |tok| <= save <= |p2| && Window(p2, st, tok) && tok != []
    requires forall j :: ps <= j < st ==> p2[j] == '&'
    ensures ParamLoop(p2, ps, Some(st), save, []).params == TokenParams(tok)
  {
    SearchPastRun(p2, ps, st, tok);
    var step := ParamStep(p2, ps, st);
    var t := Strtok(step.buf, save, '&');
    ParamLoopOnce(p2, ps, st, save, []);
    StrtokWrites(step.buf, save, '&');
    if '=' in tok {
      var i := FirstIndex(tok, '=');
      ParamStepAt(p2, ps, st, tok, i);
      WindowCut(p2, st, tok, i);
      assert '=' !in tok[..i];
      SearchPastRun(step.buf, ps, st, tok[..i]);
      StrchrKept(step.buf, t.buf, ps, '=');
      ParamLoopIdle(t.buf, ps, t.token, t.save, Append([], step.pair));
    } else {
      StrchrKept(p2, t.buf, ps, '=');
      ParamLoopIdle(t.buf, ps, t.token, t.save, []);
    }
  }

  /** One turn of the strtok loop. */
  lemma ParamLoopOnce(p: seq<char>, ps: nat, token: nat, save: nat, params: seq<KeyValue>)
    requires ps <= |p| && save <= |p| && token <= |p| && |params| < MAX_PARAMS
    ensures var step := ParamStep(p, ps, token);
            var t := Strtok(step.buf, save, '&');
            ParamLoop(p, ps, Some(token), save, params) == ParamLoop(t.buf, ps, t.token, t.save, Append(params, step.pair))
  {
  }

  /** Cutting the token that starts a window at its first '&', as strtok does. */
  lemma TokenCut(p1: seq<char>, st: nat, d: string)
    requires Window(p1, st, d)
    ensures var en := SpanTo(p1, st, '&');
            var tok := TakeUntil(d, '&');
            && en == st + |tok|
            && Window(if en < |p1| && p1[en] == '&' then p1[en := NUL] else p1, st, tok)
  {
    var tok := TakeUntil(d, '&');
    WindowSpan(p1, st, d, '&');
    var en := st + |tok|;
    if |tok| < |d| {
      assert p1[en] == '&' by {
        assert Holds(p1, st, d, |tok|);
      }
      WindowCut(p1, st, d, |tok|);
      assert d[..|tok|] == tok;
    } else {
      assert tok == d;
    }
  }

  /** The first strtok call from param_start over the query text `x`: the token is the text
      after the leading run of '&', up to the next '&', and the run stays in the buffer. */
  lemma FirstStrtok(p1: seq<char>, ps: nat, x: string)
    requires Window(p1, ps, x)
    ensures var t := Strtok(p1, ps, '&');
            var d := DropLeading(x, '&');
            var st := ps + |x| - |d|;
            && (d == [] ==> t.token.None?)
            && (d != [] ==> t.token == Some(st) && st + |FirstToken(x)| <= t.save
                            && Window(t.buf, st, FirstToken(x))
                            && forall j :: ps <= j < st ==> t.buf[j] == '&')
  {
    var t := Strtok(p1, ps, '&');
    WindowSkip(p1, ps, x, '&');
    var d := DropLeading(x, '&');
    var st := ps + |x| - |d|;
    if d != [] {
      assert Holds(p1, st, d, 0);
      TokenCut(p1, st, d);
      StrtokRun(p1, ps, x);
    }
  }

  /** The leading run of '&' that strtok skips stays in the buffer. */
  lemma StrtokRun(p1: seq<char>, ps: nat, x: string)
    requires Window(p1, ps, x)
    ensures var t := Strtok(p1, ps, '&');
            var st := ps + |x| - |DropLeading(x, '&')|;
            forall j :: ps <= j < st ==> t.buf[j] == '&'
  {
    var t := Strtok(p1, ps, '&');
    WindowSkip(p1, ps, x, '&');
    var st := ps + |x| - |DropLeading(x, '&')|;
    forall j | ps <= j < st ensures t.buf[j] == '&' {
      assert Holds(p1, ps, x, j - ps);
    }
  }

  /** The first strtok call over the query text `x` at `ps`, and the rest of the loop. */
  lemma QueryLoop(p1: seq<char>, ps: nat, x: string)
    requires Window(p1, ps, x)
    ensures var t := Strtok(p1, ps, '&');
            ParamLoop(t.buf, ps, t.token, t.save, []).params == TokenParams(FirstToken(x))
  {
    var t := Strtok(p1, ps, '&');
    FirstStrtok(p1, ps, x);
    var d := DropLeading(x, '&');
    if d == [] {
      assert t.token.None? && FirstToken(x) == [];
    } else {
      var st := ps + |x| - |d|;
      assert t.token == Some(st);
      FirstTurn(t.buf, ps, st, t.save, FirstToken(x));
    }
  }

  /** The path field holds the word sscanf stored, then its NUL. */
  lemma PathWindow(t: string)
    requires |t| < PATH_MAX && NUL !in t
    ensures Window(PathBuffer(t), 0, t)
  {
    var p := PathBuffer(t);
    forall j: nat | j < |t| ensures Holds(p, 0, t, j) {
      assert p[..|t|][j] == t[j];
    }
  }

  /** A window at the start survives changes from `n` on, past its terminator. */
  lemma WindowPrefix(s: seq<char>, p: seq<char>, x: seq<char>, n: nat)
    requires Window(p, 0, x) && |x| < n <= |p| == |s| && s[..n] == p[..n]
    ensures Window(s, 0, x)
  {
    forall j: nat | j < |x| ensures Holds(s, 0, x, j) {
      assert Holds(p, 0, x, j) && s[..n][j] == p[..n][j];
    }
    assert s[..n][|x|] == p[..n][|x|];
  }

  /** The query branch of brr.c:49-68 on the path field: the cut at the first '?' leaves the
      text before it and the text after it as two strings, and the strtok loop starts after it. */
  lemma PathCut(t: string)
    requires |t| < PATH_MAX && NUL !in t && '?' in t
    ensures var qi := FirstIndex(t, '?');
            var p1 := PathBuffer(t)[qi := NUL];
            var u := Strtok(p1, qi + 1, '&');
            && SplitQuery(PathBuffer(t)) == ParamLoop(u.buf, qi + 1, u.token, u.save, [])
            && Window(p1, 0, t[..qi]) && Window(p1, qi + 1, t[qi + 1..])
  {
    var p := PathBuffer(t);
    PathWindow(t);
    WindowStrchr(p, 0, t, '?');
    WindowCut(p, 0, t, FirstIndex(t, '?'));
  }

  /** The query branch: the parameters come from the first token after the first '?'. */
  lemma QueryCutParams(t: string)
    requires |t| < PATH_MAX && NUL !in t && '?' in t
    ensures SplitQuery(PathBuffer(t)).params == TokenParams(FirstToken(t[FirstIndex(t, '?') + 1..]))
  {
    var qi := FirstIndex(t, '?');
    PathCut(t);
    QueryLoop(PathBuffer(t)[qi := NUL], qi + 1, t[qi + 1..]);
  }

  /** The query branch: the path string ends before the first '?'. */
  lemma QueryCutPath(t: string)
    requires |t| < PATH_MAX && NUL !in t && '?' in t
    ensures CStr(SplitQuery(PathBuffer(t)).buf, 0) == t[..FirstIndex(t, '?')]
  {
    var qi := FirstIndex(t, '?');
    var p1 := PathBuffer(t)[qi := NUL];
    var u := Strtok(p1, qi + 1, '&');
    PathCut(t);
    StrtokWrites(p1, qi + 1, '&');
    var q := ParamLoop(u.buf, qi + 1, u.token, u.save, []);
    ParamLoopKeeps(u.buf, qi + 1, u.token, u.save, []);
    assert q.buf[..qi + 1] == p1[..qi + 1];
    WindowPrefix(q.buf, p1, t[..qi], qi + 1);
    WindowStr(q.buf, 0, t[..qi]);
  }

  /** brr.c:49-68 over the path field sscanf filled with `t`: the path string ends before the
      first '?', and the parameters are exactly QueryParams(t). */
  lemma SplitQueryMeaning(t: string)
    requires |t| < PATH_MAX && NUL !in t
    ensures var q := SplitQuery(PathBuffer(t));
            && |q.buf| == PATH_MAX
            && CStr(q.buf, 0) == TakeUntil(t, '?')
            && q.params == QueryParams(t)
  {
    if '?' in t {
      QueryCutPath(t);
      QueryCutParams(t);
    } else {
      PathWindow(t);
      WindowStrchr(PathBuffer(t), 0, t, '?');
      WindowStr(PathBuffer(t), 0, t);
    }
  }

  /** The string left at the start of the query text `x` once the loop is done: the run of '&'
      strtok skips and the first token after it, ended early by its first '=', where brr.c:56
      writes a NUL. */
  function QueryString(x: string): (r: string)
    ensures r <= x && '=' !in r
  {
    var lead := x[..|x| - |DropLeading(x, '&')|];
    TakeUntil(lead + FirstToken(x), '=')
  }

  /** The query string ends where the NUL of brr.c:56 or of strtok lies: it is all of `x`, or
      `x` goes on with an '=', or with the '&' that ends its first token. */
  lemma QueryStringEnds(x: string)
    ensures var r := QueryString(x);
            var n := |x| - |DropLeading(x, '&')|;
            |r| < |x| ==> x[|r|] == '=' || (x[|r|] == '&' && n < |r|)
  {
    var d := DropLeading(x, '&');
    var n := |x| - |d|;
    var lead := x[..n];
    var tok := FirstToken(x);
    var z := lead + tok;
    var r := QueryString(x);
    assert tok <= d && d == x[n..];
    assert z <= x by {
      forall j | 0 <= j < |z| ensures z[j] == x[j] {
        if j >= n {
          assert z[j] == tok[j - n] == d[j - n];
        }
      }
    }
    if |r| < |x| && |r| == |z| {
      assert |tok| < |d| && d[|tok|] == '&';
      assert x[|r|] == d[|tok|];
      assert tok != [] by {
        assert d[0] != '&';
      }
    }
  }

  /** Query text that starts with a key `k` of neither '&' nor '=' and then an '&' or an '='
      leaves `k` as the query string. */
  lemma QueryStringOf(x: string, k: string, rest: string)
    requires x == k + rest && k != [] && '&' !in k && '=' !in k && rest != [] && (rest[0] == '&' || rest[0] == '=')
    ensures QueryString(x) == k
  {
    var r := QueryString(x);
    assert x[0] == k[0];
    assert DropLeading(x, '&') == x;
    assert x[..0] == [] && [] + FirstToken(x) == FirstToken(x);
    assert '&' !in r;
    QueryStringEnds(x);
    assert x[|k|] == rest[0];
    if |r| > |k| {
      assert false;
    }
    if |r| < |k| {
      assert false;
    }
    assert r == x[..|k|] == k;
  }

  /** brr.c:49-68: after the loop, the string at the first byte after the first '?' is
      QueryString of the text after it. */
  lemma QueryStringCut(t: string)
    requires |t| < PATH_MAX && NUL !in t && '?' in t
    ensures var qi := FirstIndex(t, '?');
            CStr(SplitQuery(PathBuffer(t)).buf, qi + 1) == QueryString(t[qi + 1..])
  {
    var qi := FirstIndex(t, '?');
    PathCut(t);
    QueryLoopString(PathBuffer(t)[qi := NUL], qi + 1, t[qi + 1..]);
  }

  /** The strtok loop over the query text `x` at `ps` leaves QueryString(x) at `ps`. */
  lemma QueryLoopString(p1: seq<char>, ps: nat, x: string)
    requires Window(p1, ps, x)
    ensures var u := Strtok(p1, ps, '&');
            CStr(ParamLoop(u.buf, ps, u.token, u.save, []).buf, ps) == QueryString(x)
  {
    var u := Strtok(p1, ps, '&');
    FirstStrtok(p1, ps, x);
    var d := DropLeading(x, '&');
    var lead := x[..|x| - |d|];
    if d == [] {
      StrtokFacts(p1, ps, '&');
      QueryOfRun(p1, ps, x);
    } else {
      var st := ps + |x| - |d|;
      var tok := FirstToken(x);
      TakeUntilPast(lead, tok, '=');
      QueryTokenCut(u.buf, ps, st, u.save, tok, lead);
      WindowStr(ParamLoop(u.buf, ps, u.token, u.save, []).buf, ps, lead + TakeUntil(tok, '='));
    }
  }

  /** Query text that is all '&' has no token: the string at `ps` is that text. */
  lemma QueryOfRun(p1: seq<char>, ps: nat, x: string)
    requires Window(p1, ps, x) && DropLeading(x, '&') == []
    ensures CStr(ParamLoop(p1, ps, None, Strtok(p1, ps, '&').save, []).buf, ps) == QueryString(x)
  {
    WindowStr(p1, ps, x);
    assert x[..|x|] == x && FirstToken(x) == [];
    assert '=' !in x by {
      assert forall j :: 0 <= j < |x| ==> x[j] == '&';
    }
  }

  /** The loop over the first token `tok`, cut out at `st` after a run `lead` of '&' that starts
      at param_start `ps`: the string at `ps` ends at the token's first '=', or with the token. */
  lemma QueryTokenCut(p2: seq<char>, ps: nat, st: nat, save: nat, tok: string, lead: string)
    requires ps <= st && st + |tok| <= save <= |p2| && Window(p2, st, tok) && tok != []
    requires |lead| == st - ps && forall j :: 0 <= j < |lead| ==> lead[j] == '&'
    requires forall j :: ps <= j < st ==> p2[j] == '&'
    ensures Window(ParamLoop(p2, ps, Some(st), save, []).buf, ps, lead + TakeUntil(tok, '='))
  {
    SearchPastRun(p2, ps, st, tok);
    var step := ParamStep(p2, ps, st);
    var t2 := Strtok(step.buf, save, '&');
    ParamLoopOnce(p2, ps, st, save, []);
    StrtokWrites(step.buf, save, '&');
    var y := TakeUntil(tok, '=');
    if '=' in tok {
      var i := FirstIndex(tok, '=');
      ParamStepAt(p2, ps, st, tok, i);
      WindowCut(p2, st, tok, i);
      SearchPastRun(step.buf, ps, st, tok[..i]);
    }
    LeadWindow(step.buf, ps, st, lead, y);
    StrchrKept(step.buf, t2.buf, ps, '=');
    ParamLoopIdleBuf(t2.buf, ps, t2.token, t2.save, Append([], step.pair));
    WindowKept(step.buf, t2.buf, ps, lead + y, save);
    WindowKept(t2.buf, ParamLoop(t2.buf, ps, t2.token, t2.save, Append([], step.pair)).buf, ps, lead + y, t2.save);
  }

  /** A run `lead` of '&' in front of a window is part of the string. */
  lemma LeadWindow(p: seq<char>, ps: nat, st: nat, lead: string, y: string)
    requires Window(p, st, y) && ps <= st && |lead| == st - ps
    requires forall j :: 0 <= j < |lead| ==> lead[j] == '&'
    requires forall j :: ps <= j < st ==> p[j] == '&'
    ensures Window(p, ps, lead + y)
  {
    var z := lead + y;
    forall j: nat | j < |z| ensures Holds(p, ps, z, j) {
      if j >= |lead| {
        assert Holds(p, st, y, j - |lead|);
      }
    }
    assert NUL !in z by {
      forall j | 0 <= j < |z| ensures z[j] != NUL {
        if j >= |lead| {
          assert z[j] == y[j - |lead|];
        }
      }
    }
  }

  /** NULs written from `n` on keep a window that ends by `n`. */
  lemma WindowKept(p: seq<char>, q: seq<char>, a: nat, y: seq<char>, n: nat)
    requires Window(p, a, y) && OnlyNuls(p, q) && a + |y| <= n <= |p| && q[..n] == p[..n]
    ensures Window(q, a, y)
  {
    forall j: nat | j < |y| ensures Holds(q, a, y, j) {
      assert Holds(p, a, y, j) && q[..n][a + j] == p[..n][a + j];
    }
  }

  /** Once the search from `ps` finds no '=', the loop writes only NULs, from `save` on. */
  lemma {:induction false} ParamLoopIdleBuf(p: seq<char>, ps: nat, token: Option<nat>, save: nat, params: seq<KeyValue>)
    requires ps <= |p| && save <= |p| && (token.Some? ==> token.value <= |p|)
    requires Strchr(p, ps, '=').None?
    ensures var q := ParamLoop(p, ps, token, save, params).buf;
            OnlyNuls(p, q) && q[..save] == p[..save]
    decreases if token.Some? then |p| - save + 1 else 0
  {
    if token.Some? && |params| < MAX_PARAMS {
      var t := Strtok(p, save, '&');
      ParamLoopOnce(p, ps, token.value, save, params);
      assert ParamStep(p, ps, token.value) == LineStep(p, None);
      StrtokWrites(p, save, '&');
      StrchrKept(p, t.buf, ps, '=');
      ParamLoopIdleBuf(t.buf, ps, t.token, t.save, params);
      var q := ParamLoop(t.buf, ps, t.token, t.save, params).buf;
      assert q[..save] == q[..t.save][..save];
    }
  }

  /** At most one parameter is recorded (brr.c:56). */
  lemma AtMostOneParam(t: string)
    requires |t| < PATH_MAX && NUL !in t
    ensures |SplitQuery(PathBuffer(t)).params| <= 1
  {
    SplitQueryMeaning(t);
  }

  /** The parameters of a word depend only on the text after its first '?'. */
  lemma QueryAfter(path: string, x: string)
    requires '?' !in path
    ensures QueryParams(path + "?" + x) == TokenParams(FirstToken(x))
  {
    FirstIndexAfter(path, '?', x);
  }

  /** A token that does not start with '&' is the first token of the text it starts. */
  lemma FirstTokenIs(tok: string, rest: string)
    requires tok != [] && '&' !in tok
    ensures FirstToken(tok + "&" + rest) == tok
  {
    var x := tok + "&" + rest;
    assert x[0] == tok[0];
    assert SkipFrom(x, '&', 0) == 0;
    FirstIndexAfter(tok, '&', rest);
  }

  /** A token split at its first '=' into fields that fit. */
  lemma TokenPair(key: string, value: string)
    requires '=' !in key && |key| <= KEY_WIDTH && |value| <= VALUE_WIDTH
    ensures TokenParams(key + "=" + value) == [KeyValue(key, value)]
  {
    FirstIndexAfter(key, '=', value);
  }

  /** Whatever follows the first pair, only the first pair is recorded. */
  lemma FirstPairOnly(path: string, key: string, value: string, rest: string)
    requires '?' !in path && '&' !in key && '=' !in key && '&' !in value
    requires |key| <= KEY_WIDTH && |value| <= VALUE_WIDTH
    ensures QueryParams(path + "?" + key + "=" + value + "&" + rest) == [KeyValue(key, value)]
  {
    var tok := key + "=" + value;
    assert path + "?" + key + "=" + value + "&" + rest == path + "?" + (tok + "&" + rest);
    QueryAfter(path, tok + "&" + rest);
    FirstTokenIs(tok, rest);
    TokenPair(key, value);
  }

  /** The same over the path field: only the first pair is recorded. */
  lemma FirstPairRecorded(path: string, key: string, value: string, rest: string)
    requires '?' !in path && '&' !in key && '=' !in key && '&' !in value
    requires |key| <= KEY_WIDTH && |value| <= VALUE_WIDTH
    requires var t := path + "?" + key + "=" + value + "&" + rest; |t| < PATH_MAX && NUL !in t
    ensures SplitQuery(PathBuffer(path + "?" + key + "=" + value + "&" + rest)).params == [KeyValue(key, value)]
  {
    FirstPairOnly(path, key, value, rest);
    SplitQueryMeaning(path + "?" + key + "=" + value + "&" + rest);
  }

  /** "a=1&b=2" records only (a, 1). */
  lemma OnlyFirstParam()
    ensures QueryParams("/p?a=1&b=2") == [KeyValue("a", "1")]
  {
    assert "/p?a=1&b=2" == "/p" + "?" + "a" + "=" + "1" + "&" + "b=2";
    FirstPairOnly("/p", "a", "1", "b=2");
  }

  /** A first token without '=' records nothing, whatever follows it. */
  lemma FirstTokenWithoutEquals(t: string)
    requires |t| < PATH_MAX && NUL !in t && '?' in t
    requires '=' !in FirstToken(t[FirstIndex(t, '?') + 1..])
    ensures SplitQuery(PathBuffer(t)).params == []
  {
    SplitQueryMeaning(t);
  }
}

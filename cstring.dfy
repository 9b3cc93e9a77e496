/** C string primitives over a character buffer, as used by brr.c.

    A C string is named by a buffer and a start index; it runs up to the first
    NUL at or after the start. The end of the sequence acts as a terminator as
    well, so every function here is total; the callers in brr.c always pass
    NUL-terminated buffers. Each function has an imperative counterpart over an
    `array<char>` (the `...Of` methods) that walks the buffer the way the C
    library routine does. */
module CString {
  datatype Option<T> = None | Some(value: T)

  const NUL: char := '\0'

  /** strcspn(s + from, c): the first index at or after `from` that holds `c` or NUL. */
  function SpanTo(s: seq<char>, from: nat, c: char): (k: nat)
    requires from <= |s|
    ensures from <= k <= |s|
    ensures forall j :: from <= j < k ==> s[j] != c && s[j] != NUL
    ensures k < |s| ==> s[k] == c || s[k] == NUL
    decreases |s| - from
  {
    if from == |s| || s[from] == c || s[from] == NUL then from else SpanTo(s, from + 1, c)
  }

  /** Index of the terminator of the string at `from`: strlen(s + from) == StrEnd(s, from) - from. */
  function StrEnd(s: seq<char>, from: nat): (e: nat)
    requires from <= |s|
    ensures from <= e <= |s|
    ensures forall j :: from <= j < e ==> s[j] != NUL
    ensures e < |s| ==> s[e] == NUL
  {
    SpanTo(s, from, NUL)
  }

  /** The characters of the string at `from`. */
  function CStr(s: seq<char>, from: nat): (r: seq<char>)
    requires from <= |s|
    ensures NUL !in r
  {
    s[from..StrEnd(s, from)]
  }

  /** strchr(s + from, c) for a non-NUL `c`. */
  function Strchr(s: seq<char>, from: nat, c: char): (r: Option<nat>)
    requires from <= |s| && c != NUL
    ensures r.Some? ==> from <= r.value < StrEnd(s, from) && s[r.value] == c
    ensures r.Some? ==> forall j :: from <= j < r.value ==> s[j] != c
    ensures r.None? ==> forall j :: from <= j < StrEnd(s, from) ==> s[j] != c
  {
    var k := SpanTo(s, from, c);
    if k < |s| && s[k] == c then Some(k) else None
  }

  predicate IsCrlf(s: seq<char>, k: nat) {
    k + 1 < |s| && s[k] == '\r' && s[k + 1] == '\n'
  }

  /** strstr(s + from, "\r\n"). */
  function FindCrlf(s: seq<char>, from: nat): (r: Option<nat>)
    requires from <= |s|
    ensures r.Some? ==> from <= r.value && r.value + 1 < StrEnd(s, from) && IsCrlf(s, r.value)
    decreases |s| - from
  {
    if from == |s| || s[from] == NUL then None
    else if IsCrlf(s, from) then Some(from)
    else FindCrlf(s, from + 1)
  }

  /** strstr finds the first CRLF of the string, and finds none when the string has none. */
  lemma {:induction false} FindCrlfFacts(s: seq<char>, from: nat)
    requires from <= |s|
    ensures var r := FindCrlf(s, from);
            && (r.Some? ==> forall k :: from <= k < r.value ==> !IsCrlf(s, k))
            && (r.None? ==> forall k :: from <= k < StrEnd(s, from) ==> !IsCrlf(s, k))
    decreases |s| - from
  {
    if from < |s| && s[from] != NUL && !IsCrlf(s, from) {
      FindCrlfFacts(s, from + 1);
    }
  }

  /** The first index at or after `from` that does not hold `c` (a NUL stops it, as `c` is not NUL). */
  function SkipChar(s: seq<char>, from: nat, c: char): (k: nat)
    requires from <= |s|
    ensures from <= k <= |s|
    ensures forall j :: from <= j < k ==> s[j] == c
    ensures k < |s| ==> s[k] != c
    decreases |s| - from
  {
    if from < |s| && s[from] == c then SkipChar(s, from + 1, c) else from
  }

  /** The first `n` characters of `x`, or all of them. */
  function Truncate(x: seq<char>, n: nat): (r: seq<char>)
    ensures |r| <= n && r <= x
    ensures |x| <= n ==> r == x
    ensures |x| > n ==> |r| == n
  {
    if |x| <= n then x else x[..n]
  }

  /** strncpy(dst, s + from, n) followed by dst[n] = '\0', for a field of n + 1 characters:
      the string at `from`, cut to at most `n` characters. */
  function CopyField(s: seq<char>, from: nat, n: nat): (r: seq<char>)
    requires from <= |s|
    ensures |r| <= n && NUL !in r
    ensures r <= CStr(s, from)
    ensures |CStr(s, from)| <= n ==> r == CStr(s, from)
    ensures |CStr(s, from)| > n ==> r == CStr(s, from)[..n]
  {
    Truncate(CStr(s, from), n)
  }

  /** One call of strtok with the single delimiter `c`: the buffer after the call,
      the start of the token found (None for a NULL return) and where the next call resumes. */
  datatype Tok = Tok(buf: seq<char>, token: Option<nat>, save: nat)

  function Strtok(s: seq<char>, from: nat, c: char): (t: Tok)
    requires from <= |s| && c != NUL
    ensures |t.buf| == |s| && from <= t.save <= |s|
    ensures t.token.Some? ==> from <= t.token.value < t.save
  {
    var st := SkipChar(s, from, c);
    if st == |s| || s[st] == NUL then Tok(s, None, st)
    else
      var en := SpanTo(s, st, c);
      if en < |s| && s[en] == c then Tok(s[en := NUL], Some(st), en + 1)
      else Tok(s, Some(st), en)
  }

  /** strtok skips the leading run of `c`; the token runs up to the next `c` or the end of the
      string, and the only change to the buffer is one NUL on the `c` that ends the token.
      The next call resumes just after that NUL, at the token's terminator when the token runs
      to the end of the string, and after the skipped run when no token is found. */
  lemma StrtokFacts(s: seq<char>, from: nat, c: char)
    requires from <= |s| && c != NUL
    ensures var t := Strtok(s, from, c);
            && (t.token.None? ==> t.buf == s && forall j :: from <= j < StrEnd(s, from) ==> s[j] == c)
            && (t.token.Some? ==> forall j :: from <= j < t.token.value ==> s[j] == c)
            && (t.token.Some? ==> s[t.token.value] != c && s[t.token.value] != NUL)
            && (t.token.Some? ==> CStr(t.buf, t.token.value) == s[t.token.value..SpanTo(s, t.token.value, c)])
            && (forall j :: 0 <= j < |s| && t.buf[j] != s[j] ==> s[j] == c && t.buf[j] == NUL && j == t.save - 1)
            && (t.token.None? ==> t.save == SkipChar(s, from, c))
            && (t.token.Some? ==>
                  var en := SpanTo(s, t.token.value, c);
                  && (en < |s| && s[en] == c ==> t.buf == s[en := NUL] && t.save == en + 1)
                  && (!(en < |s| && s[en] == c) ==> t.buf == s && t.save == en))
  {
    var st := SkipChar(s, from, c);
    if st < |s| && s[st] != NUL {
      var en := SpanTo(s, st, c);
      if en < |s| && s[en] == c {
        var s' := s[en := NUL];
        assert s'[st..en] == s[st..en];
        StrEndIs(s', st, en);
      } else {
        StrEndIs(s, st, en);
      }
    }
  }

  /** The terminator of the string at `from` is the first NUL (or the end). */
  lemma StrEndIs(s: seq<char>, from: nat, e: nat)
    requires from <= e <= |s|
    requires forall j :: from <= j < e ==> s[j] != NUL
    requires e < |s| ==> s[e] == NUL
    ensures StrEnd(s, from) == e
  {
  }

  lemma SpanToIs(s: seq<char>, from: nat, c: char, k: nat)
    requires from <= k <= |s|
    requires forall j :: from <= j < k ==> s[j] != c && s[j] != NUL
    requires k < |s| ==> s[k] == c || s[k] == NUL
    ensures SpanTo(s, from, c) == k
  {
  }

  /** strchr finds the first `c` when no NUL comes before it. */
  lemma StrchrIs(s: seq<char>, from: nat, c: char, k: nat)
    requires c != NUL && from <= k < |s| && s[k] == c
    requires forall j :: from <= j < k ==> s[j] != c && s[j] != NUL
    ensures Strchr(s, from, c) == Some(k)
  {
    SpanToIs(s, from, c, k);
  }

  lemma {:induction false} FindCrlfIs(s: seq<char>, from: nat, k: nat)
    requires from <= k && IsCrlf(s, k)
    requires forall j :: from <= j <= k ==> s[j] != NUL
    requires forall j :: from <= j < k ==> !IsCrlf(s, j)
    ensures FindCrlf(s, from) == Some(k)
    decreases k - from
  {
    if from < k {
      FindCrlfIs(s, from + 1, k);
    }
  }

  lemma SkipCharIs(s: seq<char>, from: nat, c: char, k: nat)
    requires from <= k <= |s|
    requires forall j :: from <= j < k ==> s[j] == c
    requires k < |s| ==> s[k] != c
    ensures SkipChar(s, from, c) == k
  {
  }

  /** A string is unaffected by changes to the buffer outside it. */
  predicate AgreeFrom(s: seq<char>, t: seq<char>, from: nat) {
    |s| == |t| && forall k :: from <= k < |s| ==> s[k] == t[k]
  }

  lemma {:induction false} SpanToAgree(s: seq<char>, t: seq<char>, from: nat, c: char)
    requires from <= |s| && AgreeFrom(s, t, from)
    ensures SpanTo(s, from, c) == SpanTo(t, from, c)
    decreases |s| - from
  {
    if from < |s| && s[from] != c && s[from] != NUL {
      SpanToAgree(s, t, from + 1, c);
    }
  }

  lemma {:induction false} FindCrlfAgree(s: seq<char>, t: seq<char>, from: nat)
    requires from <= |s| && AgreeFrom(s, t, from)
    ensures FindCrlf(s, from) == FindCrlf(t, from)
    decreases |s| - from
  {
    if from < |s| && s[from] != NUL && !IsCrlf(s, from) {
      FindCrlfAgree(s, t, from + 1);
    }
  }

  lemma {:induction false} SkipCharAgree(s: seq<char>, t: seq<char>, from: nat, c: char)
    requires from <= |s| && AgreeFrom(s, t, from)
    ensures SkipChar(s, from, c) == SkipChar(t, from, c)
    decreases |s| - from
  {
    if from < |s| && s[from] == c {
      SkipCharAgree(s, t, from + 1, c);
    }
  }

  /** strlen over an array, walking to the terminator. */
  method StrEndOf(a: array<char>, from: nat) returns (e: nat)
    requires from <= a.Length
    ensures e == StrEnd(a[..], from)
  {
    e := from;
    while e < a.Length && a[e] != NUL
      invariant from <= e <= a.Length
      invariant forall j :: from <= j < e ==> a[j] != NUL
    {
      e := e + 1;
    }
    StrEndIs(a[..], from, e);
  }

  /** strchr over an array. */
  method StrchrOf(a: array<char>, from: nat, c: char) returns (r: Option<nat>)
    requires from <= a.Length && c != NUL
    ensures r == Strchr(a[..], from, c)
  {
    var k := from;
    while k < a.Length && a[k] != c && a[k] != NUL
      invariant from <= k <= a.Length
      invariant SpanTo(a[..], k, c) == SpanTo(a[..], from, c)
    {
      k := k + 1;
    }
    r := if k < a.Length && a[k] == c then Some(k) else None;
  }

  /** strstr(a + from, "\r\n") over an array. */
  method FindCrlfOf(a: array<char>, from: nat) returns (r: Option<nat>)
    requires from <= a.Length
    ensures r == FindCrlf(a[..], from)
  {
    var k := from;
    while k < a.Length && a[k] != NUL && !(k + 1 < a.Length && a[k] == '\r' && a[k + 1] == '\n')
      invariant from <= k <= a.Length
      invariant FindCrlf(a[..], k) == FindCrlf(a[..], from)
    {
      k := k + 1;
    }
    r := if k < a.Length && a[k] != NUL then Some(k) else None;
  }

  /** Skipping a run of `c` over an array. */
  method SkipCharOf(a: array<char>, from: nat, c: char) returns (k: nat)
    requires from <= a.Length
    ensures k == SkipChar(a[..], from, c)
  {
    k := from;
    while k < a.Length && a[k] == c
      invariant from <= k <= a.Length
      invariant SkipChar(a[..], k, c) == SkipChar(a[..], from, c)
    {
      k := k + 1;
    }
  }

  /** The bounded strncpy of a field out of an array, one character at a time. */
  method CopyFieldOf(a: array<char>, from: nat, n: nat) returns (r: seq<char>)
    requires from <= a.Length
    ensures r == CopyField(a[..], from, n)
  {
    r := [];
    var i := from;
    while i < a.Length && a[i] != NUL && i - from < n
      invariant from <= i <= a.Length && i - from <= n
      invariant forall j :: from <= j < i ==> a[j] != NUL
      invariant r == a[from..i]
    {
      r := r + [a[i]];
      i := i + 1;
    }
    assert i - from < n ==> StrEnd(a[..], from) == i by {
      if i - from < n { StrEndIs(a[..], from, i); }
    }
  }

  /** strtok over an array: skip delimiters, find the token, cut it with a NUL. */
  method StrtokOf(a: array<char>, from: nat, c: char) returns (token: Option<nat>, save: nat)
    requires from <= a.Length && c != NUL
    modifies a
    ensures Tok(a[..], token, save) == Strtok(old(a[..]), from, c)
  {
    var st := SkipCharOf(a, from, c);
    if st == a.Length || a[st] == NUL {
      return None, st;
    }
    var en := st;
    while en < a.Length && a[en] != c && a[en] != NUL
      invariant st <= en <= a.Length
      invariant SpanTo(a[..], en, c) == SpanTo(a[..], st, c)
    {
      en := en + 1;
    }
    if en < a.Length && a[en] == c {
      a[en] := NUL;
      token, save := Some(st), en + 1;
    } else {
      token, save := Some(st), en;
    }
  }
}

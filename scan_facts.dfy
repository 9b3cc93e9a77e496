/** What sscanf("%9s %1023s %19s") stores (brr.c:45): blank-separated words, each cut to its
    width, with an over-long word's remainder read by the next conversion. */
module ScanFacts {
  import opened CString
  import opened Request
  import opened Parser

  lemma {:induction false} SkipSpaceFacts(s: seq<char>, pos: nat)
    requires pos <= |s|
    ensures var k := SkipSpace(s, pos);
            && (forall j :: pos <= j < k ==> IsSpace(s[j]))
            && (k < |s| ==> !IsSpace(s[k]))
    decreases |s| - pos
  {
    if pos < |s| && IsSpace(s[pos]) {
      SkipSpaceFacts(s, pos + 1);
    }
  }

  lemma {:induction false} WordEndFacts(s: seq<char>, pos: nat, width: nat)
    requires pos <= |s|
    ensures var k := WordEnd(s, pos, width);
            && (forall j :: pos <= j < k ==> s[j] != NUL && !IsSpace(s[j]))
            && (k < |s| && k - pos < width ==> s[k] == NUL || IsSpace(s[k]))
    decreases width
  {
    if pos < |s| && width > 0 && s[pos] != NUL && !IsSpace(s[pos]) {
      WordEndFacts(s, pos + 1, width - 1);
    }
  }

  /** One conversion skips blanks, then stores the longest run of non-blank, non-NUL characters
      that fits in `width`. It stops early only at a blank, a NUL or the end of the input. */
  lemma ScanStringFacts(s: seq<char>, pos: nat, width: nat)
    requires pos <= |s|
    ensures var r := ScanString(s, pos, width);
            var st := r.next - |r.word|;
            && pos <= st && r.word == s[st..r.next] && FieldFits(r.word, width)
            && (forall j :: pos <= j < st ==> IsSpace(s[j]))
            && (st < |s| ==> !IsSpace(s[st]))
            && (forall i :: 0 <= i < |r.word| ==> !IsSpace(r.word[i]))
            && (r.next < |s| && |r.word| < width ==> s[r.next] == NUL || IsSpace(s[r.next]))
  {
    var st := SkipSpace(s, pos);
    SkipSpaceFacts(s, pos);
    WordEndFacts(s, st, width);
    var r := ScanString(s, pos, width);
    assert r.word == s[st..r.next];
    forall i | 0 <= i < |r.word| ensures r.word[i] != NUL && !IsSpace(r.word[i]) {
      assert r.word[i] == s[st + i];
    }
  }

  /** The three fields fit their arrays with room for the NUL (brr.c:25-27 and brr.c:45). */
  lemma RequestLineFits(s: seq<char>)
    ensures var line := ScanRequestLine(s);
            && FieldFits(line.methodName, METHOD_WIDTH)
            && FieldFits(line.target, PATH_WIDTH)
            && FieldFits(line.protocol, PROTOCOL_WIDTH)
  {
    var m := ScanString(s, 0, METHOD_WIDTH);
    var t := ScanString(s, m.next, PATH_WIDTH);
    ScanStringFacts(s, 0, METHOD_WIDTH);
    ScanStringFacts(s, m.next, PATH_WIDTH);
    ScanStringFacts(s, t.next, PROTOCOL_WIDTH);
  }

  /** A word of non-blank, non-NUL characters at `pos`, ended by a blank, a NUL or the end. */
  predicate WordAt(s: seq<char>, pos: nat, w: seq<char>) {
    && pos + |w| <= |s| && s[pos..pos + |w|] == w
    && (forall i :: 0 <= i < |w| ==> w[i] != NUL && !IsSpace(w[i]))
    && (pos + |w| < |s| ==> s[pos + |w|] == NUL || IsSpace(s[pos + |w|]))
  }

  /** A conversion at the start of a word no longer than its width stores the whole word. */
  lemma ScanWord(s: seq<char>, pos: nat, w: seq<char>, width: nat)
    requires WordAt(s, pos, w) && w != [] && |w| <= width
    ensures ScanString(s, pos, width) == Scanned(w, pos + |w|)
  {
    assert s[pos] == w[0];
    ScanWordEnd(s, pos, w, width);
  }

  lemma {:induction false} ScanWordEnd(s: seq<char>, pos: nat, w: seq<char>, width: nat)
    requires pos + |w| <= |s| && |w| <= width
    requires forall i :: 0 <= i < |w| ==> s[pos + i] == w[i] && w[i] != NUL && !IsSpace(w[i])
    requires pos + |w| < |s| && |w| < width ==> s[pos + |w|] == NUL || IsSpace(s[pos + |w|])
    ensures WordEnd(s, pos, width) == pos + |w|
    decreases |w|
  {
    if w != [] {
      assert s[pos] == w[0];
      forall i | 0 <= i < |w| - 1 ensures s[pos + 1 + i] == w[1..][i] {
        assert s[pos + (i + 1)] == w[i + 1];
      }
      ScanWordEnd(s, pos + 1, w[1..], width - 1);
    }
  }

  /** The spill of brr.c:45: a first word longer than 9 characters fills `method` with its first
      9 and the conversion for the path goes on inside the same word; the real path then becomes
      the protocol. */
  lemma MethodSpill(s: seq<char>, w: seq<char>, path: seq<char>)
    requires WordAt(s, 0, w) && METHOD_WIDTH < |w| <= METHOD_WIDTH + PATH_WIDTH
    requires |w| < |s| && s[|w|] == ' ' && WordAt(s, |w| + 1, path) && path != [] && |path| <= PROTOCOL_WIDTH
    ensures ScanRequestLine(s) == RequestLine(w[..METHOD_WIDTH], w[METHOD_WIDTH..], path)
  {
    var m := ScanString(s, 0, METHOD_WIDTH);
    assert s[0] == w[0];
    assert m == Scanned(w[..METHOD_WIDTH], METHOD_WIDTH) by {
      ScanWordEnd(s, 0, w[..METHOD_WIDTH], METHOD_WIDTH);
    }
    var rest := w[METHOD_WIDTH..];
    assert WordAt(s, METHOD_WIDTH, rest) by {
      assert s[METHOD_WIDTH..METHOD_WIDTH + |rest|] == s[..|w|][METHOD_WIDTH..];
      forall i | 0 <= i < |rest| ensures rest[i] != NUL && !IsSpace(rest[i]) {
        assert rest[i] == w[METHOD_WIDTH + i];
      }
    }
    ScanWord(s, METHOD_WIDTH, rest, PATH_WIDTH);
    assert IsSpace(s[|w|]);
    assert SkipSpace(s, |w|) == |w| + 1 by {
      assert s[|w| + 1] == path[0];
    }
    ScanWord(s, |w| + 1, path, PROTOCOL_WIDTH);
  }

  /** No CRLF before the terminator: parse_request returns the zeroed request and leaves the
      buffer alone (brr.c:38-43). */
  lemma NoRequestLine(s: seq<char>)
    requires forall k :: 0 <= k < StrEnd(s, 0) ==> !IsCrlf(s, k)
    ensures Parse(s) == Parsed(ZeroRequest(), s)
    ensures var r := Parse(s).req;
            && r.methodName == r.protocol == [] && PathString(r) == []
            && r.headers == r.params == [] && r.body == None && r.bodyLen == 0
  {
    assert FindCrlf(s, 0).None?;
    var z := seq(PATH_MAX, _ => NUL);
    assert z[0] == NUL;
    StrEndIs(z, 0, 0);
  }
}

/** Text helpers shared by the reference definitions of what parse_request computes. */
module Text {
  /** The first index at or after `k` that holds `c`, or |x|. */
  function FindFrom(x: seq<char>, c: char, k: nat): (r: nat)
    requires k <= |x|
    ensures k <= r <= |x| && (r < |x| ==> x[r] == c)
    ensures forall j :: k <= j < r ==> x[j] != c
    decreases |x| - k
  {
    if k == |x| || x[k] == c then k else FindFrom(x, c, k + 1)
  }

  /** The position of the first `c` in `x`. */
  function FirstIndex(x: seq<char>, c: char): (i: nat)
    requires c in x
    ensures i < |x| && x[i] == c
    ensures forall j :: 0 <= j < i ==> x[j] != c
  {
    FindFrom(x, c, 0)
  }

  /** The first `c` is at `i` when `i` holds `c` and nothing before it does. */
  lemma FirstIndexIs(x: seq<char>, c: char, i: nat)
    requires i < |x| && x[i] == c && forall j :: 0 <= j < i ==> x[j] != c
    ensures c in x && FirstIndex(x, c) == i
  {
    var r := FirstIndex(x, c);
    assert r <= i;
  }

  /** In `a`, then `c`, then `b`, with no `c` in `a`: the first `c` is the one after `a`. */
  lemma FirstIndexAfter(a: seq<char>, c: char, b: seq<char>)
    requires c !in a
    ensures var x := a + [c] + b; c in x && FirstIndex(x, c) == |a| && x[..|a|] == a && x[|a| + 1..] == b
  {
    var x := a + [c] + b;
    forall j | 0 <= j < |a| ensures x[j] != c {
      assert x[j] == a[j];
    }
    FirstIndexIs(x, c, |a|);
    assert x[..|a|] == a;
    assert x[|a| + 1..] == b;
  }

  /** Text without `c` in front of `x` is kept whole by TakeUntil. */
  lemma TakeUntilPast(a: seq<char>, x: seq<char>, c: char)
    requires c !in a
    ensures TakeUntil(a + x, c) == a + TakeUntil(x, c)
  {
    var y := a + x;
    forall j | 0 <= j < |a| ensures y[j] != c {
      assert y[j] == a[j];
    }
    if c in x {
      var i := FirstIndex(x, c);
      assert y[|a| + i] == x[i];
      forall j | |a| <= j < |a| + i ensures y[j] != c {
        assert y[j] == x[j - |a|];
      }
      FirstIndexIs(y, c, |a| + i);
      assert y[..|a| + i] == a + x[..i];
    } else {
      assert c !in y by {
        forall j | |a| <= j < |y| ensures y[j] != c {
          assert y[j] == x[j - |a|];
        }
      }
    }
  }

  /** The text of `x` before its first `c`, or all of `x`. */
  function TakeUntil(x: seq<char>, c: char): (r: seq<char>)
    ensures r <= x && c !in r
    ensures |r| < |x| ==> x[|r|] == c
  {
    if c in x then x[..FirstIndex(x, c)] else x
  }

  /** The first index at or after `k` that does not hold `c`, or |x|. */
  function SkipFrom(x: seq<char>, c: char, k: nat): (r: nat)
    requires k <= |x|
    ensures k <= r <= |x| && (r < |x| ==> x[r] != c)
    ensures forall j :: k <= j < r ==> x[j] == c
    decreases |x| - k
  {
    if k == |x| || x[k] != c then k else SkipFrom(x, c, k + 1)
  }

  /** Skipping `c` from inside a run of `c` stops where the run ends. */
  lemma {:induction false} SkipFromRun(x: seq<char>, c: char, k: nat, n: nat)
    requires k <= n <= |x| && (forall j :: k <= j < n ==> x[j] == c) && (n < |x| ==> x[n] != c)
    ensures SkipFrom(x, c, k) == n
    decreases n - k
  {
    if k < n {
      SkipFromRun(x, c, k + 1, n);
    }
  }

  /** A run of `c` followed by text that does not start with `c`: the run is what is dropped. */
  lemma DropLeadingRun(run: seq<char>, c: char, rest: seq<char>)
    requires (forall i :: 0 <= i < |run| ==> run[i] == c) && (rest != [] ==> rest[0] != c)
    ensures DropLeading(run + rest, c) == rest
  {
    var x := run + rest;
    forall j | 0 <= j < |run| ensures x[j] == c {
      assert x[j] == run[j];
    }
    if rest != [] {
      assert x[|run|] == rest[0];
    }
    SkipFromRun(x, c, 0, |run|);
    assert x[|run|..] == rest;
  }

  /** `x` without its leading run of `c`. */
  function DropLeading(x: seq<char>, c: char): (r: seq<char>)
    ensures |r| <= |x| && r == x[|x| - |r|..]
    ensures forall i :: 0 <= i < |x| - |r| ==> x[i] == c
    ensures r != [] ==> r[0] != c
  {
    x[SkipFrom(x, c, 0)..]
  }
}

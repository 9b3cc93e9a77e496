/** Path resolution and the security verdict of handle_client (brr.c:165-183).

    realpath is not modelled: it is the parameter `canon`, a partial function from a
    path to its canonical absolute form (None where realpath fails). The verdict
    compares the canonical path with the server root the way brr.c does, with
    strncmp over strlen(root) characters, that is, as a textual prefix. */
module Resolve {
  import opened CString

  /** A string realpath can return: it holds no NUL. */
  type CPath = s: string | NUL !in s

  /** realpath(path, out): the canonical path, or None where it fails. */
  type Canon = string -> Option<CPath>

  /** SERVER_ROOT (brr.c:10). */
  const SERVER_ROOT: string := "."
  /** What "/" is served as (brr.c:166-167). */
  const INDEX_PAGE: string := "index.html"

  /** server_root_path as main leaves it (brr.c:247-249): realpath(SERVER_ROOT), or the empty
      string of the zeroed global when that fails. */
  function ServerRoot(canon: Canon): CPath {
    match canon(SERVER_ROOT)
    case None => []
    case Some(r) => r
  }

  /** The character strncmp reads at `i`: past the end of a sequence it reads the terminator. */
  function At(s: seq<char>, i: nat): char {
    if i < |s| then s[i] else NUL
  }

  /** strncmp(a + i, b + i, n - i) == 0, given that the first `i` characters already agree:
      compare up to `n` positions, stopping at the first difference or a common terminator. */
  function StrnEqFrom(a: seq<char>, b: seq<char>, i: nat, n: nat): bool
    decreases n - i
  {
    if i >= n then true
    else if At(a, i) != At(b, i) then false
    else if At(a, i) == NUL then true
    else StrnEqFrom(a, b, i + 1, n)
  }

  /** strncmp(full, root, strlen(root)) == 0 is a textual prefix test. */
  lemma {:induction false} StrnEqIsPrefix(a: CPath, b: CPath, i: nat)
    requires i <= |a| && i <= |b| && a[..i] == b[..i]
    ensures StrnEqFrom(a, b, i, |b|) <==> b <= a
    decreases |b| - i
  {
    if i < |b| {
      if i < |a| && a[i] == b[i] {
        assert a[..i + 1] == b[..i + 1] by {
          assert a[..i + 1] == a[..i] + [a[i]] && b[..i + 1] == b[..i] + [b[i]];
        }
        StrnEqIsPrefix(a, b, i + 1);
      } else {
        assert At(b, i) == b[i] != NUL;
        assert i < |a| ==> b[..|b|][i] == b[i] != a[i];
      }
    } else {
      assert b == a[..i];
    }
  }

  /** The path handle_client asks realpath about (brr.c:165-170): "index.html" when the request
      path is exactly "/", otherwise the string at the path array's second byte. */
  function RequestedPath(path: seq<char>): (r: string)
    requires 1 <= |path|
    ensures NUL !in r
  {
    if CStr(path, 0) == "/" then INDEX_PAGE else CStr(path, 1)
  }

  /** Dropping the leading '/' of a non-empty path string: the string at the second byte is the
      path string without its first character. */
  lemma RequestedPathOf(path: seq<char>)
    requires 1 <= |path| && CStr(path, 0) != []
    ensures RequestedPath(path) == if CStr(path, 0) == "/" then INDEX_PAGE else CStr(path, 0)[1..]
  {
    var e := StrEnd(path, 0);
    StrEndIs(path, 1, e);
  }

  /** The outcome of the security check: rejected, or accepted with the canonical path. */
  datatype Verdict = Reject | Accept(full: CPath)

  /** brr.c:173-183: reject when realpath fails or the first strlen(root) characters of the
      canonical path differ from the root. */
  function Check(root: CPath, canon: Canon, requested: string): (v: Verdict)
    ensures v.Accept? ==> canon(requested) == Some(v.full)
  {
    match canon(requested)
    case None => Reject
    case Some(full) => if StrnEqFrom(full, root, 0, |root|) then Accept(full) else Reject
  }

  /** The request is rejected exactly when realpath fails or the root is not a textual prefix
      of the canonical path; otherwise it is accepted with that path. */
  lemma CheckMeaning(root: CPath, canon: Canon, requested: string)
    ensures Check(root, canon, requested) ==
              if canon(requested).Some? && root <= canon(requested).value then Accept(canon(requested).value) else Reject
  {
    if canon(requested).Some? {
      StrnEqIsPrefix(canon(requested).value, root, 0);
    }
  }

  /** The check is textual, not by directory: any canonical path that merely starts with the
      root's characters is accepted, whatever follows them. */
  lemma SiblingPrefixAccepted(root: CPath, canon: Canon, requested: string, rest: CPath)
    requires canon(requested).Some? && canon(requested).value == root + rest
    ensures Check(root, canon, requested) == Accept(root + rest)
  {
    CheckMeaning(root, canon, requested);
  }

  /** So a server rooted at /srv/www serves /srv/wwwevil/x, outside its directory. */
  lemma SiblingDirectoryServed(canon: Canon, requested: string)
    requires canon(requested).Some? && canon(requested).value == "/srv/wwwevil/x"
    ensures Check("/srv/www", canon, requested).Accept?
  {
    assert "/srv/wwwevil/x" == "/srv/www" + "evil/x";
    SiblingPrefixAccepted("/srv/www", canon, requested, "evil/x");
  }

  /** When realpath(SERVER_ROOT) failed, the root is empty and every path realpath accepts is
      served (brr.c:247-249 with brr.c:174-175). */
  lemma EmptyRootAcceptsAll(canon: Canon, requested: string)
    requires canon(SERVER_ROOT).None?
    ensures Check(ServerRoot(canon), canon, requested).Accept? <==> canon(requested).Some?
  {
    CheckMeaning(ServerRoot(canon), canon, requested);
  }
}

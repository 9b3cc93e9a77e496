/** Dispatch and response selection of handle_client (brr.c:187-236), once the canonical path
    was accepted.

    fopen/fread are not modelled: the parameter `content` gives a file's bytes, or None
    where fopen fails. The gateway (handle_cgi) is not modelled either: the response
    records the script path and the bytes it would be fed on its standard input. */
module Dispatch {
  import opened CString
  import opened Resolve

  /** fopen(path, "r") followed by freads to the end: the file's bytes, or None. */
  type Content = string -> Option<seq<char>>

  /** What handle_client does with an accepted request. `Cgi` runs the script with `input` on its
      standard input; `Ok` sends the 200 header for `contentType` and then `bytes`. */
  datatype Response =
    | Forbidden
    | Cgi(script: string, input: string)
    | NotFound
    | Ok(contentType: string, bytes: seq<char>)

  /** brr.c:176-179. */
  const FORBIDDEN_TEXT: string := "HTTP/1.1 403 Forbidden\r\n\r\n<h1>403 Forbidden</h1>\r\n"
  /** brr.c:214-218; the unclosed <h1> is in the source. */
  const NOT_FOUND_TEXT: string := "HTTP/1.1 404 Not Found\r\nContent-Type: text/html\r\n\r\n<h1>Not Found<h1>"
  /** sizeof(file_buffer) (brr.c:230). */
  const CHUNK_SIZE: nat := 1024

  /** The 200 header sprintf builds (brr.c:222-226). */
  function OkHeader(contentType: string): string {
    "HTTP/1.1 200 OK\r\nContent-Type: " + contentType + "\r\n\r\n"
  }

  /** What handle_client itself writes to the client. A CGI script writes to the socket on its own;
      the server writes nothing. */
  function Sent(r: Response): seq<char> {
    match r
    case Forbidden => FORBIDDEN_TEXT
    case Cgi(_, _) => []
    case NotFound => NOT_FOUND_TEXT
    case Ok(ct, bytes) => OkHeader(ct) + bytes
  }

  /** strrchr(s, c) over a string without NUL: the last index holding `c`. */
  function LastIndex(s: string, c: char): (r: Option<nat>)
    ensures r.Some? ==> r.value < |s| && s[r.value] == c && forall j :: r.value < j < |s| ==> s[j] != c
    ensures r.None? ==> c !in s
  {
    if s == [] then None
    else if s[|s| - 1] == c then Some(|s| - 1)
    else
      var r := LastIndex(s[..|s| - 1], c);
      assert forall j :: 0 <= j < |s| - 1 ==> s[..|s| - 1][j] == s[j];
      r
  }

  /** ext = strrchr(full_path, '.') (brr.c:189): the suffix from the last '.' of the whole
      canonical path, directories included, or None when it has no '.'. */
  function Extension(full: CPath): (ext: Option<string>)
    ensures ext.Some? ==> 1 <= |ext.value| <= |full| && ext.value[0] == '.' && '.' !in ext.value[1..] && full[|full| - |ext.value|..] == ext.value
    ensures ext.None? ==> '.' !in full
  {
    match LastIndex(full, '.')
    case None => None
    case Some(i) =>
      assert forall j :: 0 <= j < |full| - i - 1 ==> full[i..][1..][j] == full[i + 1 + j];
      Some(full[i..])
  }

  /** A name ending in '.' and a suffix without '.' has that extension. */
  lemma ExtensionOf(stem: CPath, ext: string)
    requires NUL !in ext && |ext| >= 1 && ext[0] == '.' && '.' !in ext[1..]
    ensures Extension(stem + ext) == Some(ext)
  {
    var full := stem + ext;
    var i := |stem|;
    forall j | i < j < |full| ensures full[j] != '.' {
      assert full[j] == ext[1..][j - i - 1];
    }
    assert full[i..] == ext;
    LastIndexIs(full, '.', i);
  }

  /** The last '.' is where the characters after it hold none. */
  lemma LastIndexIs(s: string, c: char, i: nat)
    requires i < |s| && s[i] == c && forall j :: i < j < |s| ==> s[j] != c
    ensures LastIndex(s, c) == Some(i)
  {
    if i < |s| - 1 {
      LastIndexIs(s[..|s| - 1], c, i);
    }
  }

  /** The content types the server knows (brr.c:198-208). */
  const CONTENT_TYPES: map<string, string> := map[
    ".html" := "text/html", ".htm" := "text/html",
    ".css" := "text/css",
    ".js" := "application/javascript",
    ".jpg" := "image/jpeg", ".jpeg" := "image/jpeg",
    ".png" := "image/png"]

  /** The default content type (brr.c:188). */
  const DEFAULT_TYPE: string := "text/plain"

  /** The if/else chain of brr.c:197-209 with strcmp, so case-sensitive. It agrees with the
      lookup in CONTENT_TYPES, and anything not in it, or no extension at all, is text/plain. */
  function ContentType(ext: Option<string>): (ct: string)
    ensures ext.Some? && ext.value in CONTENT_TYPES ==> ct == CONTENT_TYPES[ext.value]
    ensures !(ext.Some? && ext.value in CONTENT_TYPES) ==> ct == DEFAULT_TYPE
  {
    if ext.None? then DEFAULT_TYPE
    else if ext.value == ".html" || ext.value == ".htm" then "text/html"
    else if ext.value == ".css" then "text/css"
    else if ext.value == ".js" then "application/javascript"
    else if ext.value == ".jpg" || ext.value == ".jpeg" then "image/jpeg"
    else if ext.value == ".png" then "image/png"
    else DEFAULT_TYPE
  }

  /** brr.c:187-219 for an accepted canonical path: ".cgi" goes to the gateway with `input`;
      otherwise the file is served with the type of its extension, or 404 when it cannot be
      opened. */
  function Serve(full: CPath, input: string, content: Content): (r: Response)
    ensures r.Cgi? <==> Extension(full) == Some(".cgi")
    ensures r.Cgi? ==> r.script == full && r.input == input
    ensures r.NotFound? <==> Extension(full) != Some(".cgi") && content(full).None?
    ensures r.Ok? ==> content(full) == Some(r.bytes) && r.contentType == ContentType(Extension(full))
    ensures !r.Forbidden?
  {
    var ext := Extension(full);
    if ext == Some(".cgi") then Cgi(full, input)
    else
      match content(full)
      case None => NotFound
      case Some(bytes) => Ok(ContentType(ext), bytes)
  }

  /** Each extension of the table, at the end of a path, selects its content type. */
  lemma KnownExtension(stem: CPath, ext: string, input: string, content: Content)
    requires ext in CONTENT_TYPES && content(stem + ext).Some?
    ensures Serve(stem + ext, input, content) == Ok(CONTENT_TYPES[ext], content(stem + ext).value)
  {
    TableKey(ext);
    ExtensionOf(stem, ext);
  }

  /** Every key of the table is a '.' followed by characters other than '.'. */
  lemma TableKey(ext: string)
    requires ext in CONTENT_TYPES
    ensures NUL !in ext && |ext| >= 1 && ext[0] == '.' && '.' !in ext[1..]
  {
    assert ext in {".html", ".htm", ".css", ".js", ".jpg", ".jpeg", ".png"};
  }

  /** A path ending in exactly ".cgi" goes to the gateway, whether or not the file opens. */
  lemma CgiExtension(stem: CPath, input: string, content: Content)
    ensures Serve(stem + ".cgi", input, content) == Cgi(stem + ".cgi", input)
  {
    ExtensionOf(stem, ".cgi");
  }

  /** Extensions are compared case-sensitively: "page.HTML" is served as text/plain. */
  lemma UpperCaseHtmlIsPlain(stem: CPath, input: string, content: Content)
    requires content(stem + ".HTML").Some?
    ensures Serve(stem + ".HTML", input, content) == Ok(DEFAULT_TYPE, content(stem + ".HTML").value)
  {
    ExtensionOf(stem, ".HTML");
  }

  /** ... and "run.CGI" is not run. */
  lemma UpperCaseCgiNotRun(stem: CPath, input: string, content: Content)
    ensures !Serve(stem + ".CGI", input, content).Cgi?
  {
    ExtensionOf(stem, ".CGI");
  }

  /** The extension is taken over the whole path: a '.' in a directory name and none in the file
      name gives that directory's suffix, so the file is text/plain. */
  lemma DotInDirectory(dir: CPath, name: CPath)
    requires '.' !in name && '/' !in name
    ensures Extension(dir + ".d/" + name) == Some(".d/" + name)
    ensures ContentType(Extension(dir + ".d/" + name)) == DEFAULT_TYPE
  {
    var ext := ".d/" + name;
    assert ext[1..] == "d/" + name;
    assert dir + ".d/" + name == dir + ext;
    ExtensionOf(dir, ext);
    assert ext[2] == '/';
    assert ext !in CONTENT_TYPES;
  }

  /** fread(file_buffer, 1, sizeof(file_buffer), file): copy the next bytes of `f`, from `pos`, as
      many as fit. */
  method Fread(dst: array<char>, f: seq<char>, pos: nat) returns (n: nat)
    requires pos <= |f|
    modifies dst
    ensures n == if |f| - pos < dst.Length then |f| - pos else dst.Length
    ensures dst[..n] == f[pos..pos + n]
    ensures dst[n..] == old(dst[n..])
  {
    n := 0;
    while n < dst.Length && pos + n < |f|
      invariant n <= dst.Length && pos + n <= |f|
      invariant dst[..n] == f[pos..pos + n]
      invariant forall j :: n <= j < dst.Length ==> dst[j] == old(dst[j])
    {
      dst[n] := f[pos + n];
      n := n + 1;
    }
  }

  /** brr.c:221-235: the 200 header, then the file in chunks of at most CHUNK_SIZE bytes until
      fread returns 0. What is written is the header followed by the whole file. */
  method SendFile(contentType: string, f: seq<char>) returns (out: seq<char>)
    ensures out == Sent(Ok(contentType, f))
  {
    out := OkHeader(contentType);
    var fileBuffer := new char[CHUNK_SIZE];
    var pos: nat := 0;
    while true
      invariant pos <= |f|
      invariant out == OkHeader(contentType) + f[..pos]
      decreases |f| - pos
    {
      var n := Fread(fileBuffer, f, pos);
      if n == 0 {
        break;
      }
      out := out + fileBuffer[..n];
      assert f[..pos + n] == f[..pos] + f[pos..pos + n];
      pos := pos + n;
    }
    assert f[..pos] == f;
  }
}

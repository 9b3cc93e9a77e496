/** The parsed request of brr.c (struct HttpRequest) and the sizes of its fixed fields. */
module Request {
  import opened CString

  /** Capacity of handle_client's read buffer: at most 1023 bytes are read, then a NUL is stored. */
  const BUFFER_SIZE: nat := 1024
  /** PATH_MAX on Linux: the size of HttpRequest.path and of the paths in handle_client. */
  const PATH_MAX: nat := 4096
  const MAX_HEADERS: nat := 100
  const MAX_PARAMS: nat := 20
  /** sscanf widths of the request line ("%9s %1023s %19s"). */
  const METHOD_WIDTH: nat := 9
  const PATH_WIDTH: nat := 1023
  const PROTOCOL_WIDTH: nat := 19
  /** KeyValuePair.key is char[50] and KeyValuePair.value is char[500]; one place holds the NUL. */
  const KEY_WIDTH: nat := 49
  const VALUE_WIDTH: nat := 499

  datatype KeyValue = KeyValue(key: string, value: string)

  /** A list of pairs with one more recorded, if there is one. */
  function Append(pairs: seq<KeyValue>, p: Option<KeyValue>): seq<KeyValue> {
    if p.Some? then pairs + [p.value] else pairs
  }

  /** One step of a parse loop: the buffer after its surgery and the pair it records, if any. */
  datatype LineStep = LineStep(buf: seq<char>, pair: Option<KeyValue>)

  /** HttpRequest. The text fields hold the characters before their NUL; `methodName` is the C field `method`; `path` holds the whole
      char[PATH_MAX] array, because handle_client reads past the path's own terminator.
      header_count and param_count are the lengths of `headers` and `params`,
      and `body` is the index in the read buffer where the C field `body` points. */
  datatype Request = Request(
    methodName: string,
    path: seq<char>,
    protocol: string,
    headers: seq<KeyValue>,
    params: seq<KeyValue>,
    body: Option<nat>,
    bodyLen: nat)

  /** The request as memset leaves it: every byte zero. */
  function ZeroRequest(): Request { Request("", seq(PATH_MAX, _ => NUL), "", [], [], None, 0) }

  /** The path string: the characters of the path array before its first NUL. */
  function PathString(r: Request): string {
    CStr(r.path, 0)
  }

  predicate FieldFits(f: string, width: nat) {
    |f| <= width && NUL !in f
  }

  predicate PairFits(p: KeyValue) {
    FieldFits(p.key, KEY_WIDTH) && FieldFits(p.value, VALUE_WIDTH)
  }

  /** Every field fits its C array with room for its terminating NUL, and the counts stay within their arrays. */
  predicate FitsLayout(r: Request) {
    && FieldFits(r.methodName, METHOD_WIDTH)
    && |r.path| == PATH_MAX
    && |PathString(r)| <= PATH_WIDTH
    && FieldFits(r.protocol, PROTOCOL_WIDTH)
    && |r.headers| <= MAX_HEADERS && (forall i :: 0 <= i < |r.headers| ==> PairFits(r.headers[i]))
    && |r.params| <= MAX_PARAMS && (forall i :: 0 <= i < |r.params| ==> PairFits(r.params[i]))
  }
}

/** What a request on the wire means: a parse of the whole remaining byte stream, with the
    error the code reports and the bytes it leaves behind in every case. */
module HttpGrammar {
  import opened Bytes
  import opened Streams

  const MAX_HEADER_BYTES := 8192
  const MAX_HEADER_LINE := 4096
  const MAX_HEADER_COUNT := 100

  const BLANK_LINE: Bytes := CRLF + CRLF
  const COLON: byte := 58
  const COMMA: byte := 44
  const SLASH: byte := 47

  type Headers = map<Bytes, seq<Bytes>>

  datatype Request = Request(verb: Bytes, target: Bytes, version: Bytes, headers: Headers, body: Bytes)

  datatype Fault =
    | HeadersTooLarge | TooManyHeaders | LineTooLong
    | BadRequestLine | BadMethod | BadTarget | BadVersion
    | BadHeader | BadHeaderValue | BadHost
    | UnsupportedEncoding | MixedFraming | BadContentLength | ConflictingLengths
    | BadChunkSize | ChunkTooLarge | BadChunkEnding

  datatype ReadError =
    | EndOfStream              // io.EOF: the stream ended before a request began
    | UnexpectedEnd            // io.ErrUnexpectedEOF
    | Transport(code: int)     // the reader's own error
    | Malformed(fault: Fault)

  // A result together with the bytes that are left for the next request.
  datatype Parsed<T> = Parsed(result: Result<T, ReadError>, rest: Bytes)

  // The error for a stream that ends inside a request.
  function CutShort(final: IoError): ReadError {
    match final
    case Eof => UnexpectedEnd
    case Failed(code) => Transport(code)
  }

  // The error for a stream that ends between requests.
  function Ended(final: IoError): ReadError {
    match final
    case Eof => EndOfStream
    case Failed(code) => Transport(code)
  }

  // ---------- body ----------

  function ParseBytes(s: Bytes, final: IoError, size: nat): Parsed<Bytes> {
    if size <= |s| then Parsed(Ok(s[..size]), s[size..]) else Parsed(Err(CutShort(final)), [])
  }

  function ParseLine(s: Bytes, final: IoError): (p: Parsed<Bytes>)
    ensures p.result.Ok? ==> |p.rest| + 2 <= |s|
  {
    var end := Find(s, CRLF);
    if end == -1 then Parsed(Err(CutShort(final)), s) else Parsed(Ok(s[..end]), s[end + 2..])
  }

  /** One chunk, when `have` body bytes came before it; the last chunk is empty. */
  function ParseChunk(s: Bytes, final: IoError, have: nat): (p: Parsed<Bytes>)
    ensures p.result.Ok? ==> |p.rest| < |s|
  {
    var line := ParseLine(s, final);
    if line.result.Err? then Parsed(line.result, line.rest)
    else if line.result.value == [] || !AllHex(line.result.value) then
      Parsed(Err(Malformed(BadChunkSize)), line.rest)
    else
      var size := HexValue(line.result.value);
      if size > MAX_INT || size > MAX_INT - have then Parsed(Err(Malformed(ChunkTooLarge)), line.rest)
      else
        ParseChunkData(line.rest, final, size)
  }

  function ParseChunkData(s: Bytes, final: IoError, size: nat): (p: Parsed<Bytes>)
    ensures p.result.Ok? ==> |p.rest| < |s|
  {
    var data := ParseBytes(s, final, size);
    if data.result.Err? then data
    else
      var ending := ParseBytes(data.rest, final, 2);
      if ending.result.Err? then ending
      else if ending.result.value != CRLF then Parsed(Err(Malformed(BadChunkEnding)), ending.rest)
      else Parsed(Ok(data.result.value), ending.rest)
  }

  /** The chunks from here on, when `have` body bytes came before them. */
  function ParseChunks(s: Bytes, final: IoError, have: nat): Parsed<Bytes>
    decreases |s|
  {
    var chunk := ParseChunk(s, final, have);
    if chunk.result.Err? || chunk.result.value == [] then chunk
    else Prepend(chunk.result.value, ParseChunks(chunk.rest, final, have + |chunk.result.value|))
  }

  function Prepend(front: Bytes, p: Parsed<Bytes>): Parsed<Bytes> {
    match p.result
    case Ok(body) => Parsed(Ok(front + body), p.rest)
    case Err(_) => p
  }

  const TRANSFER_ENCODING := Ascii("transfer-encoding")
  const CONTENT_LENGTH := Ascii("content-length")
  const CHUNKED := Ascii("chunked")
  const HOST := Ascii("host")
  const CONNECTION := Ascii("connection")
  const CLOSE := Ascii("close")
  const KEEP_ALIVE := Ascii("keep-alive")
  const VERSION := Ascii("HTTP/1.1")

  /** The length that values i, i+1, ... agree on, when those before them said `length`. */
  function AgreedLength(values: seq<Bytes>, i: nat, length: nat): Result<nat, Fault>
    requires i <= |values|
    decreases |values| - i
  {
    if i == |values| then Ok(length)
    else
      var n := Atoi(values[i]);
      if n == None || n.value < 0 then Err(BadContentLength)
      else if i > 0 && n.value != length then Err(ConflictingLengths)
      else AgreedLength(values, i + 1, n.value)
  }

  predicate IsChunked(encodings: seq<Bytes>) {
    LowerWord(Join(encodings, [COMMA]), false) == CHUNKED
  }

  function ParseBody(s: Bytes, final: IoError, headers: Headers): Parsed<Bytes> {
    if TRANSFER_ENCODING in headers then
      if !IsChunked(headers[TRANSFER_ENCODING]) then Parsed(Err(Malformed(UnsupportedEncoding)), s)
      else if CONTENT_LENGTH in headers then Parsed(Err(Malformed(MixedFraming)), s)
      else ParseChunks(s, final, 0)
    else
      match AgreedLength(if CONTENT_LENGTH in headers then headers[CONTENT_LENGTH] else [], 0, 0)
      case Err(fault) => Parsed(Err(Malformed(fault)), s)
      case Ok(length) => ParseBytes(s, final, length)
  }

  // ---------- head ----------

  predicate IsTokenByte(b: byte) {
    || 65 <= b <= 90 || 97 <= b <= 122 || 48 <= b <= 57
    || b in {33, 35, 36, 37, 38, 39, 42, 43, 45, 46, 94, 95, 96, 124, 126}
  }

  predicate ValidHeaderName(name: Bytes) {
    name != [] && forall b <- name :: IsTokenByte(b)
  }

  predicate ValidHeaderValue(value: Bytes) {
    forall b <- value :: b == TAB || (32 <= b && b != 127)
  }

  // The bytes that the source refuses in a method: ( ) < > @ , ; : \ " / [ ] ? = { } and
  // white space, and whatever is not a printable ASCII byte.
  predicate IsMethodByte(b: byte) {
    33 <= b <= 126 && b !in {40, 41, 60, 62, 64, 44, 59, 58, 92, 34, 47, 91, 93, 63, 61, 123, 125}
  }

  predicate ValidMethod(m: Bytes) {
    m != [] && forall b <- m :: IsMethodByte(b)
  }

  predicate ValidTarget(target: Bytes) {
    target != [] && target[0] == SLASH && TAB !in target && CR !in target && LF !in target
  }

  /** One header line: its lower-case name and its trimmed value. */
  function ParseField(line: Bytes): Result<(Bytes, Bytes), Fault> {
    var colon := Find(line, [COLON]);
    if colon == -1 || !ValidHeaderName(line[..colon]) then Err(BadHeader)
    else if !ValidHeaderValue(line[colon + 1..]) then Err(BadHeaderValue)
    else Ok((Lower(line[..colon]), Trim(line[colon + 1..], {SPACE, TAB})))
  }

  function Append(headers: Headers, name: Bytes, value: Bytes): Headers {
    headers[name := (if name in headers then headers[name] else []) + [value]]
  }

  function ParseFields(lines: seq<Bytes>, headers: Headers): Result<Headers, Fault> {
    if lines == [] then Ok(headers)
    else
      match ParseField(lines[0])
      case Err(fault) => Err(fault)
      case Ok((name, value)) => ParseFields(lines[1..], Append(headers, name, value))
  }

  predicate LinesFit(lines: seq<Bytes>) {
    forall line <- lines :: |line| <= MAX_HEADER_LINE
  }

  function RequestLineFault(parts: seq<Bytes>): Option<Fault> {
    if |parts| != 3 then Some(BadRequestLine)
    else if !ValidMethod(parts[0]) then Some(BadMethod)
    else if !ValidTarget(parts[1]) then Some(BadTarget)
    else if parts[2] != VERSION then Some(BadVersion)
    else None
  }

  /** The header block, without the blank line that ends it. */
  function ParseHead(block: Bytes): Result<Request, Fault> {
    var lines := Split(block, CRLF);
    if |lines| - 1 > MAX_HEADER_COUNT then Err(TooManyHeaders)
    else if !LinesFit(lines) then Err(LineTooLong)
    else
      var parts := Split(lines[0], [SPACE]);
      match RequestLineFault(parts)
      case Some(fault) => Err(fault)
      case None =>
        match ParseFields(lines[1..], map[])
        case Err(fault) => Err(fault)
        case Ok(headers) => Ok(Request(parts[0], parts[1], parts[2], headers, []))
  }

  predicate HasHost(headers: Headers) {
    HOST in headers && |headers[HOST]| == 1 && TrimSpace(headers[HOST][0]) != []
  }

  // ---------- request ----------

  function ParseRequest(s: Bytes, final: IoError): Parsed<Request> {
    var end := Find(s, BLANK_LINE);
    if 0 <= end && end + 4 <= MAX_HEADER_BYTES then
      match ParseHead(s[..end])
      case Err(fault) => Parsed(Err(Malformed(fault)), s)
      case Ok(head) => WithBody(head, ParseRest(s[end + 4..], final, head))
    else if MAX_HEADER_BYTES <= |s| then Parsed(Err(Malformed(HeadersTooLarge)), s)
    else if s == [] then Parsed(Err(Ended(final)), s)
    else Parsed(Err(CutShort(final)), s)
  }

  function ParseRest(s: Bytes, final: IoError, head: Request): Parsed<Bytes> {
    if HasHost(head.headers) then ParseBody(s, final, head.headers)
    else Parsed(Err(Malformed(BadHost)), s)
  }

  function WithBody(head: Request, body: Parsed<Bytes>): Parsed<Request> {
    match body.result
    case Ok(data) => Parsed(Ok(head.(body := data)), body.rest)
    case Err(error) => Parsed(Err(error), body.rest)
  }
}

/** The connection handler: it answers pipelined requests until one asks to close, the
    stream ends between requests, or the next request cannot be read. */
module HttpServer {
  import opened Bytes
  import opened Streams
  import opened HttpGrammar
  import opened HttpLaws
  import opened HttpReader

  // ---------- closing ----------

  function Token(part: Bytes): Bytes {
    LowerWord(TrimSpace(part), true)
  }

  function TokensOf(value: Bytes): (tokens: seq<Bytes>)
    ensures |tokens| == |Split(value, [COMMA])|
  {
    var parts := Split(value, [COMMA]);
    seq(|parts|, i requires 0 <= i < |parts| => Token(parts[i]))
  }

  /** The comma-separated tokens of the Connection header's values, in order. */
  function Tokens(values: seq<Bytes>): seq<Bytes> {
    if values == [] then [] else TokensOf(values[0]) + Tokens(values[1..])
  }

  function ConnectionValues(q: Request): seq<Bytes> {
    if CONNECTION in q.headers then q.headers[CONNECTION] else []
  }

  predicate Closes(q: Request) {
    CLOSE in Tokens(ConnectionValues(q)) || (q.version != VERSION && KEEP_ALIVE !in Tokens(ConnectionValues(q)))
  }

  lemma TokensFrom(values: seq<Bytes>, i: nat)
    requires i < |values|
    ensures Tokens(values[i..]) == TokensOf(values[i]) + Tokens(values[i + 1..])
  {
    assert values[i..][0] == values[i] && values[i..][1..] == values[i + 1..];
  }

  lemma NoTokens()
    ensures Tokens([]) == [] && CLOSE != KEEP_ALIVE
  {
    assert |CLOSE| == 5 && |KEEP_ALIVE| == 10;
  }

  lemma TokenAt(value: Bytes, j: nat)
    requires j < |Split(value, [COMMA])|
    ensures TokensOf(value)[j] == Token(Split(value, [COMMA])[j])
  {
  }

  method ShouldClose(q: Request) returns (close: bool)
    ensures close == Closes(q)
  {
    hide Token, TokensOf, Tokens, Split, Ascii;
    NoTokens();
    var keepAlive := false;
    var values := ConnectionValues(q);
    assert values[0..] == values;
    for i := 0 to |values|
      invariant CLOSE in Tokens(values) <==> CLOSE in Tokens(values[i..])
      invariant KEEP_ALIVE in Tokens(values) <==> keepAlive || KEEP_ALIVE in Tokens(values[i..])
    {
      var parts := Split(values[i], [COMMA]);
      ghost var tokens := TokensOf(values[i]);
      TokensFrom(values, i);
      ghost var before := keepAlive;
      for j := 0 to |parts|
        invariant CLOSE !in tokens[..j]
        invariant keepAlive <==> before || KEEP_ALIVE in tokens[..j]
      {
        TokenAt(values[i], j);
        assert tokens[..j + 1] == tokens[..j] + [tokens[j]];
        var token := Token(parts[j]);
        if token == CLOSE {
          return true;
        } else if token == KEEP_ALIVE {
          keepAlive := true;
        }
      }
      assert tokens[..|parts|] == tokens;
    }
    assert values[|values|..] == [];
    return q.version != VERSION && !keepAlive;
  }

  // ---------- replies ----------

  datatype Reply = Reply(status: Bytes, body: Bytes, close: bool)

  const OK_200 := Ascii("200 OK")
  const NOT_FOUND := Ascii("404 Not Found")
  const NOT_ALLOWED := Ascii("405 Method Not Allowed")
  const BAD_REQUEST := Reply(Ascii("400 Bad Request"), Ascii("Bad Request"), true)

  function Route(q: Request): (Bytes, Bytes) {
    if q.target == Ascii("/") then
      if q.verb == Ascii("GET") then (OK_200, Ascii("Hello World!"))
      else (NOT_ALLOWED, Ascii("Method Not Allowed"))
    else if q.target == Ascii("/echo") then
      if q.verb == Ascii("POST") then (OK_200, q.body)
      else (NOT_ALLOWED, Ascii("Method Not Allowed"))
    else (NOT_FOUND, Ascii("Not Found"))
  }

  function ReplyTo(q: Request): Reply {
    Reply(Route(q).0, Route(q).1, Closes(q))
  }

  lemma ReplyToIs(q: Request)
    ensures ReplyTo(q) == Reply(Route(q).0, Route(q).1, Closes(q))
  {
  }

  const STATUS_PREFIX := Ascii("HTTP/1.1 ")
  const LENGTH_PREFIX := Ascii("Content-Length: ")
  const TYPE_LINE := Ascii("Content-Type: text/plain")
  const CONNECTION_PREFIX := Ascii("Connection: ")

  function ConnectionWord(close: bool): Bytes {
    if close then CLOSE else KEEP_ALIVE
  }

  function ReplyWire(r: Reply): Bytes {
    STATUS_PREFIX + r.status + CRLF
    + LENGTH_PREFIX + Decimal(|r.body|) + CRLF
    + TYPE_LINE + CRLF
    + CONNECTION_PREFIX + ConnectionWord(r.close) + BLANK_LINE
    + r.body
  }

  function RepliesWire(replies: seq<Reply>): Bytes {
    if replies == [] then [] else ReplyWire(replies[0]) + RepliesWire(replies[1..])
  }

  method WriteResponse(sink: Sink, r: Reply) returns (err: Option<WriteError>)
    modifies sink
    ensures err.None? ==> sink.written == old(sink.written) + ReplyWire(r)
    ensures err.Some? ==> old(sink.written) <= sink.written <= old(sink.written) + ReplyWire(r)
    ensures old(sink.Willing()) ==> sink.Willing() && err.None?
  {
    err := sink.WriteAll(ReplyWire(r));
  }

  // ---------- the connection ----------

  /** The replies to a stream of pipelined requests. */
  function Replies(s: Bytes, final: IoError): seq<Reply>
    decreases |s|
  {
    var p := ParseRequest(s, final);
    match p.result
    case Err(error) => if error == EndOfStream then [] else [BAD_REQUEST]
    case Ok(q) =>
      RequestExtends(s, final, [], final);
      [ReplyTo(q)] + (if Closes(q) then [] else Replies(p.rest, final))
  }

  method HandleConnection(source: Source, sink: Sink)
    modifies source, sink
    ensures var replies := RepliesWire(Replies(old(source.Undelivered()), source.final));
      && old(sink.written) <= sink.written <= old(sink.written) + replies
      && (old(sink.Willing()) ==> sink.written == old(sink.written) + replies)
  {
    hide *;
    var reader := new RequestReader(source);
    ghost var all := old(sink.written) + RepliesWire(Replies(reader.Rest(), source.final));
    while true
      invariant reader.Valid() && reader.reader == source && fresh(reader)
      invariant all == sink.written + RepliesWire(Replies(reader.Rest(), source.final))
      invariant old(sink.written) <= sink.written
      invariant old(sink.Willing()) ==> sink.Willing()
      decreases |reader.Rest()|
    {
      NextReply(reader.Rest(), source.final);
      var r := reader.ReadRequest();
      match r {
        case Err(error) =>
          if error != EndOfStream {
            var _ := WriteResponse(sink, BAD_REQUEST);
          }
          return;
        case Ok(q) =>
          var closeConnection := ShouldClose(q);
          var (status, body) := Route(q);
          var reply := Reply(status, body, closeConnection);
          ReplyToIs(q);
          var err := WriteResponse(sink, reply);
          if err.Some? || closeConnection {
            return;
          }
      }
    }
  }

  /** How the replies to a stream begin. */
  lemma NextReply(s: Bytes, final: IoError)
    ensures var p := ParseRequest(s, final);
      match p.result
      case Err(error) =>
        RepliesWire(Replies(s, final)) == if error == EndOfStream then [] else ReplyWire(BAD_REQUEST)
      case Ok(q) =>
        && |p.rest| < |s|
        && RepliesWire(Replies(s, final)) ==
           ReplyWire(ReplyTo(q)) + if Closes(q) then [] else RepliesWire(Replies(p.rest, final))
  {
    hide ParseRequest, ReplyWire, Closes, ReplyTo;
    var p := ParseRequest(s, final);
    match p.result {
      case Err(error) =>
        assert RepliesWire([BAD_REQUEST]) == ReplyWire(BAD_REQUEST) + [];
      case Ok(q) =>
        RequestExtends(s, final, [], final);
        var more := if Closes(q) then [] else Replies(p.rest, final);
        assert ([ReplyTo(q)] + more)[1..] == more;
        assert RepliesWire([]) == [];
    }
  }

  // ---------- what the replies are ----------

  function RequestsWire(ws: seq<Wire>): Bytes {
    if ws == [] then [] else Render(ws[0]) + RequestsWire(ws[1..])
  }

  ghost predicate AreRequests(ws: seq<Wire>, qs: seq<Request>) {
    |ws| == |qs| && forall i :: 0 <= i < |ws| ==> IsRequest(ws[i], qs[i])
  }

  function RepliesTo(qs: seq<Request>): seq<Reply> {
    seq(|qs|, i requires 0 <= i < |qs| => ReplyTo(qs[i]))
  }

  ghost predicate StartsWithRequest(s: Bytes) {
    exists w, q, rest :: IsRequest(w, q) && s == Render(w) + rest
  }

  // Only the last of the requests may ask to close.
  predicate OpenUntilLast(qs: seq<Request>) {
    forall i :: 0 <= i < |qs| - 1 ==> !Closes(qs[i])
  }

  predicate LastCloses(qs: seq<Request>) {
    qs != [] && Closes(qs[|qs| - 1])
  }

  // The reply to whatever stands where the next request should begin.
  function FinalReply(tail: Bytes, final: IoError): seq<Reply> {
    if tail == [] && final == Eof then [] else [BAD_REQUEST]
  }

  /** io.EOF is reported only at the end of the stream, between requests. */
  lemma {:induction false} EndOfStreamIff(s: Bytes, final: IoError)
    ensures ParseRequest(s, final).result == Err(EndOfStream) <==> s == [] && final == Eof
  {
    hide ParseHead, ParseChunks, AgreedLength, HasHost, IsChunked;
    var end := Find(s, BLANK_LINE);
    if 0 <= end && end + 4 <= MAX_HEADER_BYTES && ParseHead(s[..end]).Ok? {
      ChunksNeverEnd(s[end + 4..], final, 0);
    }
  }

  lemma {:induction false} ChunksNeverEnd(s: Bytes, final: IoError, have: nat)
    ensures ParseChunks(s, final, have).result != Err(EndOfStream)
    decreases |s|
  {
    var chunk := ParseChunk(s, final, have);
    ChunkNeverEnds(s, final, have);
    hide ParseChunk;
    if chunk.result.Ok? && chunk.result.value != [] {
      ChunksNeverEnd(chunk.rest, final, have + |chunk.result.value|);
    }
  }

  lemma ChunkNeverEnds(s: Bytes, final: IoError, have: nat)
    ensures ParseChunk(s, final, have).result != Err(EndOfStream)
  {
    hide Find, HexValue, AllHex;
  }

  lemma RepliesToCons(qs: seq<Request>, more: seq<Reply>)
    requires qs != []
    ensures RepliesTo(qs) + more == [ReplyTo(qs[0])] + (RepliesTo(qs[1..]) + more)
  {
    hide ReplyTo;
    assert RepliesTo(qs) == [ReplyTo(qs[0])] + RepliesTo(qs[1..]);
  }

  /** The requests up to the first that asks to close are answered in order and nothing else
      is; without one, the tail that is no request gets one 400 unless it is a clean end. */
  lemma {:induction false} ConnectionAnswers(ws: seq<Wire>, qs: seq<Request>, tail: Bytes, final: IoError)
    requires AreRequests(ws, qs) && OpenUntilLast(qs)
    requires LastCloses(qs) || !StartsWithRequest(tail)
    ensures Replies(RequestsWire(ws) + tail, final) == RepliesTo(qs) + if LastCloses(qs) then [] else FinalReply(tail, final)
    decreases |ws|
  {
    hide ParseRequest, IsRequest, Closes, ReplyTo, Render;
    if ws == [] {
      assert RequestsWire(ws) + tail == tail;
      EndOfStreamIff(tail, final);
      if ParseRequest(tail, final).result.Ok? {
        var w := RequestSound(tail, final);
        assert false;
      }
    } else {
      var rest := RequestsWire(ws[1..]) + tail;
      assert RequestsWire(ws) + tail == Render(ws[0]) + rest;
      RequestComplete(ws[0], qs[0], rest, final);
      if |qs| == 1 && LastCloses(qs) {
        assert RepliesTo(qs) + [] == [ReplyTo(qs[0])] + [];
      } else {
        var last := if LastCloses(qs) then [] else FinalReply(tail, final);
        if |qs| > 1 {
          assert qs[1..][|qs| - 2] == qs[|qs| - 1];
        }
        ConnectionAnswers(ws[1..], qs[1..], tail, final);
        RepliesToCons(qs, last);
      }
    }
  }

  /** Every stream is such a sequence of requests and tail, so ConnectionAnswers says what
      the handler replies to any input. */
  lemma {:induction false} EveryStreamIsPipelined(s: Bytes, final: IoError)
    returns (ws: seq<Wire>, qs: seq<Request>, tail: Bytes)
    ensures s == RequestsWire(ws) + tail
    ensures AreRequests(ws, qs) && OpenUntilLast(qs)
    ensures LastCloses(qs) || !StartsWithRequest(tail)
    decreases |s|
  {
    hide IsRequest, Closes, Render, ParseRequest;
    var p := ParseRequest(s, final);
    if p.result.Err? {
      ws, qs, tail := [], [], s;
      forall w, q, rest | IsRequest(w, q) ensures s != Render(w) + rest {
        RequestComplete(w, q, rest, final);
      }
    } else {
      var w := RequestSound(s, final);
      var q := p.result.value;
      if Closes(q) {
        ws, qs, tail := [w], [q], p.rest;
        assert RequestsWire([w]) == Render(w) + [];
      } else {
        RequestExtends(s, final, [], final);
        ws, qs, tail := EveryStreamIsPipelined(p.rest, final);
        assert ([w] + ws)[1..] == ws;
        assert RequestsWire([w] + ws) == Render(w) + RequestsWire(ws);
        assert forall i :: 1 <= i < |qs| ==> ([q] + qs)[i] == qs[i - 1];
        ws, qs := [w] + ws, [q] + qs;
      }
    }
  }

  // ---------- reading the replies back ----------

  function Strip(line: Bytes, prefix: Bytes): Option<Bytes> {
    if prefix <= line then Some(line[|prefix|..]) else None
  }

  /** A client: the header ends at the first blank line and the body has the announced length. */
  function ReadReply(s: Bytes): (r: Option<(Reply, Bytes)>)
    ensures r.Some? ==> |r.value.1| < |s|
  {
    var end := Find(s, BLANK_LINE);
    if end == -1 then None else ReplyFrom(Split(s[..end], CRLF), s[end + 4..])
  }

  function ReplyFrom(lines: seq<Bytes>, after: Bytes): (r: Option<(Reply, Bytes)>)
    ensures r.Some? ==> |r.value.1| <= |after|
  {
    if |lines| != 4 then None
    else
      var status, length := Strip(lines[0], STATUS_PREFIX), Strip(lines[1], LENGTH_PREFIX);
      var connection := Strip(lines[3], CONNECTION_PREFIX);
      if status.None? || length.None? || connection.None? || !AllDigits(length.value) then None
      else
        var n := DigitsValue(length.value);
        if |after| < n || connection.value !in [CLOSE, KEEP_ALIVE] then None
        else Some((Reply(status.value, after[..n], connection.value == CLOSE), after[n..]))
  }

  function ReadReplies(s: Bytes): Option<seq<Reply>>
    decreases |s|
  {
    if s == [] then Some([])
    else
      match ReadReply(s)
      case None => None
      case Some((reply, rest)) =>
        match ReadReplies(rest)
        case None => None
        case Some(more) => Some([reply] + more)
  }

  function ReplyLines(r: Reply): (lines: seq<Bytes>)
    ensures |lines| == 4
  {
    [STATUS_PREFIX + r.status, LENGTH_PREFIX + Decimal(|r.body|), TYPE_LINE, CONNECTION_PREFIX + ConnectionWord(r.close)]
  }

  lemma JoinFour(a: Bytes, b: Bytes, c: Bytes, d: Bytes, sep: Bytes)
    ensures Join([a, b, c, d], sep) == a + sep + (b + sep + (c + sep + d))
  {
    assert [a, b, c, d][1..] == [b, c, d];
    JoinThree(b, c, d, sep);
  }

  lemma ReplyHeadClean(r: Reply)
    requires CR !in r.status
    ensures forall line <- ReplyLines(r) :: CR !in line && line != []
  {
    assert CR !in Decimal(|r.body|) by { assert !IsDigit(CR); }
    ConstantsClean();
    hide Decimal, Ascii;
  }

  lemma ConstantsClean()
    ensures CR !in STATUS_PREFIX && CR !in LENGTH_PREFIX && CR !in TYPE_LINE && CR !in CONNECTION_PREFIX
    ensures CR !in CLOSE && CR !in KEEP_ALIVE
    ensures STATUS_PREFIX != [] && LENGTH_PREFIX != [] && TYPE_LINE != [] && CONNECTION_PREFIX != []
  {
    assert STATUS_PREFIX[0] == 72 && LENGTH_PREFIX[0] == 67 && TYPE_LINE[0] == 67 && CONNECTION_PREFIX[0] == 67;
  }

  /** One reply is read back, and nothing after it is touched, whatever the body contains. */
  lemma {:induction false} ReplyReadBack(r: Reply, rest: Bytes)
    requires CR !in r.status
    ensures ReadReply(ReplyWire(r) + rest) == Some((r, rest))
  {
    hide Split, Join, DigitsValue, Decimal, ReplyFrom, Find, ConnectionWord, ReplyLines;
    var lines := ReplyLines(r);
    ReplyHead(r);
    var s := ReplyWire(r) + rest;
    var block := Join(lines, CRLF);
    var after := r.body + rest;
    assert s == block + BLANK_LINE + after;
    ReplyHeadClean(r);
    BlankLineEndsBlock(lines, after);
    assert s[|block|..|block| + 4] == BLANK_LINE;
    FindIs(s, BLANK_LINE, |block|);
    assert s[..|block|] == block && s[|block| + 4..] == after;
    SplitJoin(lines, CRLF);
    ReplyFromLines(r, rest);
  }

  lemma ReplyHead(r: Reply)
    ensures ReplyWire(r) == Join(ReplyLines(r), CRLF) + BLANK_LINE + r.body
  {
    hide Decimal, ConnectionWord, Join;
    var lines := ReplyLines(r);
    JoinFour(lines[0], lines[1], lines[2], lines[3], CRLF);
  }

  lemma ReplyFromLines(r: Reply, rest: Bytes)
    ensures ReplyFrom(ReplyLines(r), r.body + rest) == Some((r, rest))
  {
    hide Decimal, DigitsValue;
    StripPrefix(STATUS_PREFIX, r.status);
    StripPrefix(LENGTH_PREFIX, Decimal(|r.body|));
    StripPrefix(CONNECTION_PREFIX, ConnectionWord(r.close));
    assert |CLOSE| == 5 && |KEEP_ALIVE| == 10;
    CutAppended(r.body, rest, |r.body|);
    assert r.body[..|r.body|] == r.body && r.body[|r.body|..] + rest == rest;
  }

  lemma StripPrefix(prefix: Bytes, text: Bytes)
    ensures Strip(prefix + text, prefix) == Some(text)
  {
    assert (prefix + text)[|prefix|..] == text;
  }

  lemma {:induction false} RepliesReadBack(replies: seq<Reply>)
    requires forall r <- replies :: CR !in r.status
    ensures ReadReplies(RepliesWire(replies)) == Some(replies)
  {
    hide ReadReply, ReplyWire;
    if replies == [] {
    } else {
      assert CR !in replies[0].status;
      ReplyReadBack(replies[0], RepliesWire(replies[1..]));
      RepliesReadBack(replies[1..]);
      assert [replies[0]] + replies[1..] == replies;
    }
  }

  /** What the handler writes to a client that takes everything can be read in one way only:
      as the replies, in order. */
  lemma {:induction false} ServedRepliesReadBack(s: Bytes, final: IoError)
    ensures ReadReplies(RepliesWire(Replies(s, final))) == Some(Replies(s, final))
  {
    RepliesHaveCleanStatus(s, final);
    RepliesReadBack(Replies(s, final));
  }

  lemma {:induction false} RepliesHaveCleanStatus(s: Bytes, final: IoError)
    ensures forall r <- Replies(s, final) :: CR !in r.status
    decreases |s|
  {
    hide ParseRequest, Closes;
    var p := ParseRequest(s, final);
    assert CR !in BAD_REQUEST.status && CR !in OK_200 && CR !in NOT_FOUND && CR !in NOT_ALLOWED;
    if p.result.Ok? && !Closes(p.result.value) {
      RequestExtends(s, final, [], final);
      RepliesHaveCleanStatus(p.rest, final);
    }
  }
}

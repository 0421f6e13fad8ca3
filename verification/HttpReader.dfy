/** The buffered request reader. Whatever the fragmentation of the stream, its methods
    return what HttpGrammar says of the buffered bytes followed by the unread ones. */
module HttpReader {
  import opened Bytes
  import opened Streams
  import opened HttpGrammar

  class RequestReader {
    const reader: Source
    var buffer: Bytes
    var readErr: Option<IoError>

    constructor (reader: Source)
      ensures Valid() && this.reader == reader && buffer == []
      ensures Rest() == reader.Undelivered()
    {
      this.reader := reader;
      buffer, readErr := [], None;
    }

    // A deferred error is the stream's last word.
    ghost predicate Valid()
      reads this, reader
    {
      readErr.Some? ==> readErr.value == reader.final && reader.chunks == []
    }

    /** Everything that has not been consumed: the buffer, then the bytes still to come. */
    ghost function Rest(): Bytes
      reads this, reader
    {
      buffer + reader.Undelivered()
    }

    /** One Read of at most `size` bytes into the buffer; its error is kept for later. */
    method Fill(size: nat)
      requires Valid() && readErr == None && size > 0
      modifies this, reader
      ensures Valid() && Rest() == old(Rest())
      ensures |old(buffer)| <= |buffer| <= |old(buffer)| + size
      ensures old(buffer) <= buffer
      ensures readErr.None? ==> reader.Work() < old(reader.Work())
      ensures reader.delivered - |buffer| == old(reader.delivered - |buffer|)
      ensures reader.reach == Max(old(reader.reach), old(reader.delivered) + size)
    {
      var data, err := reader.Read(size);
      buffer := buffer + data;
      readErr := err;
    }

    method ReadBytes(size: nat) returns (r: Result<Bytes, ReadError>)
      requires Valid()
      modifies this, reader
      ensures Valid()
      ensures Parsed(r, Rest()) == ParseBytes(old(Rest()), reader.final, size)
    {
      ghost var all := Rest();
      var data := new byte[size];
      var copied := Min(size, |buffer|);
      CopyInto(data, 0, buffer[..copied]);
      buffer := buffer[copied..];
      if copied < size {
        if readErr.Some? {
          return Err(CutShort(readErr.value));
        }
        var err, got := reader.ReadFull(data, copied);
        if err.Some? {
          return Err(CutShort(err.value));
        }
        assert data[..] == data[..copied] + data[copied..copied + got];
      }
      assert data[..] == all[..size];
      r := Ok(data[..]);
    }

    method ReadChunkLine() returns (r: Result<Bytes, ReadError>)
      requires Valid()
      modifies this, reader
      ensures Valid()
      ensures Parsed(r, Rest()) == ParseLine(old(Rest()), reader.final)
    {
      while true
        invariant Valid() && Rest() == old(Rest())
        decreases readErr.None?, reader.Work()
      {
        var end := Find(buffer, CRLF);
        if end >= 0 {
          FindInExtension(buffer, reader.Undelivered(), CRLF);
          CutAppended(buffer, reader.Undelivered(), end);
          CutAppended(buffer, reader.Undelivered(), end + 2);
          r := Ok(buffer[..end]);
          buffer := buffer[end + 2..];
          return;
        }
        if readErr.Some? {
          assert Rest() == buffer;
          return Err(CutShort(readErr.value));
        }
        Fill(1024);
      }
    }

    /** One turn of the chunk loop. */
    method ReadChunk(have: nat) returns (r: Result<Bytes, ReadError>)
      requires Valid()
      modifies this, reader
      ensures Valid()
      ensures Parsed(r, Rest()) == ParseChunk(old(Rest()), reader.final, have)
    {
      var line := ReadChunkLine();
      if line.Err? {
        return line;
      }
      if line.value == [] || !AllHex(line.value) {
        return Err(Malformed(BadChunkSize));
      }
      var size := HexValue(line.value);
      if size > MAX_INT || size > MAX_INT - have {
        return Err(Malformed(ChunkTooLarge));
      }
      var chunk := ReadBytes(size);
      if chunk.Err? {
        return chunk;
      }
      var ending := ReadBytes(2);
      if ending.Err? {
        return ending;
      }
      if ending.value != CRLF {
        return Err(Malformed(BadChunkEnding));
      }
      return chunk;
    }

    method ReadChunkedBody() returns (r: Result<Bytes, ReadError>)
      requires Valid()
      modifies this, reader
      ensures Valid()
      ensures Parsed(r, Rest()) == ParseChunks(old(Rest()), reader.final, 0)
    {
      var body: Bytes := [];
      ghost var whole := ParseChunks(Rest(), reader.final, 0);
      PrependNothing(whole);
      while true
        invariant Valid()
        invariant whole == Prepend(body, ParseChunks(Rest(), reader.final, |body|))
        decreases |Rest()|
      {
        ChunkTurn(body, Rest(), reader.final);
        var chunk := ReadChunk(|body|);
        if chunk.Err? {
          return chunk;
        }
        if chunk.value == [] {
          return Ok(body);
        }
        body := body + chunk.value;
      }
    }

    method ReadBody(headers: Headers) returns (r: Result<Bytes, ReadError>)
      requires Valid()
      modifies this, reader
      ensures Valid()
      ensures Parsed(r, Rest()) == ParseBody(old(Rest()), reader.final, headers)
    {
      if TRANSFER_ENCODING in headers {
        if LowerWord(Join(headers[TRANSFER_ENCODING], [COMMA]), false) != CHUNKED {
          return Err(Malformed(UnsupportedEncoding));
        }
        if CONTENT_LENGTH in headers {
          return Err(Malformed(MixedFraming));
        }
        r := ReadChunkedBody();
        return;
      }
      var contentLength: nat := 0;
      if CONTENT_LENGTH in headers {
        var values := headers[CONTENT_LENGTH];
        for i := 0 to |values|
          invariant AgreedLength(values, 0, 0) == AgreedLength(values, i, contentLength)
        {
          var length := Atoi(values[i]);
          if length == None || length.value < 0 {
            return Err(Malformed(BadContentLength));
          }
          if i > 0 && length.value != contentLength {
            return Err(Malformed(ConflictingLengths));
          }
          contentLength := length.value;
        }
      }
      r := ReadBytes(contentLength);
    }

    /** Read until the buffer holds a header block; `end` is where its blank line begins. */
    method FindHead() returns (r: Result<nat, ReadError>)
      requires Valid()
      modifies this, reader
      ensures Valid() && Rest() == old(Rest())
      ensures r.Ok? ==> r.value == Find(Rest(), BLANK_LINE) && r.value + 4 <= |buffer|
      ensures r.Err? ==> (Find(Rest(), BLANK_LINE) == -1 || MAX_HEADER_BYTES < Find(Rest(), BLANK_LINE) + 4)
                         && Parsed(Err(r.error), Rest()) == ParseRequest(old(Rest()), reader.final)
      // No read asks for bytes past the header budget, counted from the request's first byte.
      ensures reader.reach <= Max(old(reader.reach), old(reader.delivered - |buffer|) + MAX_HEADER_BYTES)
      ensures |buffer| <= Max(|old(buffer)|, MAX_HEADER_BYTES)
    {
      var end := Find(buffer, BLANK_LINE);
      while end < 0
        invariant Valid() && Rest() == old(Rest())
        invariant end == Find(buffer, BLANK_LINE)
        invariant reader.delivered - |buffer| == old(reader.delivered - |buffer|)
        invariant reader.reach <= Max(old(reader.reach), old(reader.delivered - |buffer|) + MAX_HEADER_BYTES)
        invariant |buffer| <= Max(|old(buffer)|, MAX_HEADER_BYTES)
        decreases readErr.None?, reader.Work()
      {
        var remaining := MAX_HEADER_BYTES - |buffer|;
        if remaining <= 0 {
          NoEarlyBlankLine(buffer, reader.Undelivered());
          return Err(Malformed(HeadersTooLarge));
        }
        if readErr.Some? {
          assert Rest() == buffer;
          return Err(if buffer != [] then CutShort(readErr.value) else Ended(readErr.value));
        }
        Fill(Min(1024, remaining));
        end := Find(buffer, BLANK_LINE);
      }
      FindInExtension(buffer, reader.Undelivered(), BLANK_LINE);
      return Ok(end);
    }

    method ReadRequest() returns (r: Result<Request, ReadError>)
      requires Valid()
      modifies this, reader
      ensures Valid()
      ensures Parsed(r, Rest()) == ParseRequest(old(Rest()), reader.final)
    {
      hide ParseHead, ParseBody, HasHost, Find;
      var found := FindHead();
      if found.Err? {
        return Err(found.error);
      }
      var end := found.value;
      if end + 4 > MAX_HEADER_BYTES {
        return Err(Malformed(HeadersTooLarge));
      }
      CutAppended(buffer, reader.Undelivered(), end);
      CutAppended(buffer, reader.Undelivered(), end + 4);
      var head := ReadHead(buffer[..end]);
      if head.Err? {
        return Err(Malformed(head.error));
      }
      buffer := buffer[end + 4..];
      if !HasHost(head.value.headers) {
        return Err(Malformed(BadHost));
      }
      var body := ReadBody(head.value.headers);
      match body {
        case Ok(data) => return Ok(head.value.(body := data));
        case Err(error) => return Err(error);
      }
    }
  }

  /** The part of readRequest between finding the header block and consuming it. */
  method ReadHead(block: Bytes) returns (r: Result<Request, Fault>)
    ensures r == ParseHead(block)
  {
    hide Lower, Trim, ValidHeaderName, ValidHeaderValue, Split, ValidMethod, ValidTarget, Find;
    var lines := Split(block, CRLF);
    if |lines| - 1 > MAX_HEADER_COUNT {
      return Err(TooManyHeaders);
    }
    for i := 0 to |lines|
      invariant forall k :: 0 <= k < i ==> |lines[k]| <= MAX_HEADER_LINE
    {
      if |lines[i]| > MAX_HEADER_LINE {
        assert lines[i] in lines;
        return Err(LineTooLong);
      }
    }
    var parts := Split(lines[0], [SPACE]);
    var fault := RequestLineFault(parts);
    if fault.Some? {
      return Err(fault.value);
    }
    var headers: Headers := map[];
    for i := 1 to |lines|
      invariant ParseFields(lines[1..], map[]) == ParseFields(lines[i..], headers)
    {
      assert lines[i..][1..] == lines[i + 1..];
      var line := lines[i];
      var colon := Find(line, [COLON]);
      if colon < 0 || !ValidHeaderName(line[..colon]) {
        return Err(BadHeader);
      }
      var name := Lower(line[..colon]);
      if !ValidHeaderValue(line[colon + 1..]) {
        return Err(BadHeaderValue);
      }
      var values := if name in headers then headers[name] else [];
      headers := headers[name := values + [Trim(line[colon + 1..], {SPACE, TAB})]];
    }
    return Ok(Request(parts[0], parts[1], parts[2], headers, []));
  }

  lemma PrependNothing(p: Parsed<Bytes>)
    ensures Prepend([], p) == p
  {
    if p.result.Ok? {
      assert [] + p.result.value == p.result.value;
    }
  }

  lemma PrependTwice(a: Bytes, b: Bytes, p: Parsed<Bytes>)
    ensures Prepend(a, Prepend(b, p)) == Prepend(a + b, p)
  {
    if p.result.Ok? {
      assert a + (b + p.result.value) == (a + b) + p.result.value;
    }
  }

  /** What one turn of the chunk loop does to the body collected so far. */
  lemma ChunkTurn(body: Bytes, s: Bytes, final: IoError)
    ensures var chunk := ParseChunk(s, final, |body|);
      Prepend(body, ParseChunks(s, final, |body|)) ==
        if chunk.result.Err? then chunk
        else if chunk.result.value == [] then Parsed(Ok(body), chunk.rest)
        else Prepend(body + chunk.result.value, ParseChunks(chunk.rest, final, |body + chunk.result.value|))
  {
    hide ParseChunk;
    var chunk := ParseChunk(s, final, |body|);
    if chunk.result.Ok? {
      if chunk.result.value == [] {
        assert body + [] == body;
      } else {
        PrependTwice(body, chunk.result.value, ParseChunks(chunk.rest, final, |body + chunk.result.value|));
      }
    }
  }

  /** A blank line that is not in a full buffer cannot end within the header budget. */
  lemma NoEarlyBlankLine(buffer: Bytes, more: Bytes)
    requires Find(buffer, BLANK_LINE) == -1
    ensures Find(buffer + more, BLANK_LINE) == -1 || |buffer| < Find(buffer + more, BLANK_LINE) + 4
  {
    var i := Find(buffer + more, BLANK_LINE);
    if i != -1 && i + 4 <= |buffer| {
      OccursInExtension(buffer, more, BLANK_LINE, i);
    }
  }
}

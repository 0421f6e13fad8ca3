/** The request syntax as a printer, written without reference to the parser, and the proof
    that the parser accepts exactly what the printer can print. */
module HttpLaws {
  import opened Bytes
  import opened Streams
  import opened HttpGrammar

  // ---------- chunked bodies ----------

  datatype Chunk = Chunk(sizeLine: Bytes, data: Bytes)

  // A hexadecimal numeral, of any case and with any leading zeros.
  predicate IsSizeLine(line: Bytes, size: nat) {
    line != [] && AllHex(line) && HexValue(line) == size
  }

  function ChunkWire(line: Bytes, data: Bytes): Bytes {
    line + CRLF + data + CRLF
  }

  function ChunkedWire(chunks: seq<Chunk>, last: Bytes): Bytes {
    if chunks == [] then ChunkWire(last, [])
    else ChunkWire(chunks[0].sizeLine, chunks[0].data) + ChunkedWire(chunks[1..], last)
  }

  function ChunkedBody(chunks: seq<Chunk>): Bytes {
    if chunks == [] then [] else chunks[0].data + ChunkedBody(chunks[1..])
  }

  predicate ValidChunks(chunks: seq<Chunk>, last: Bytes) {
    && IsSizeLine(last, 0)
    && forall c <- chunks :: c.data != [] && IsSizeLine(c.sizeLine, |c.data|)
  }

  lemma HexHasNoCR(line: Bytes)
    requires AllHex(line)
    ensures CR !in line
  {
    assert !IsHex(CR);
  }

  lemma ChunkComplete(line: Bytes, data: Bytes, rest: Bytes, final: IoError, have: nat)
    requires IsSizeLine(line, |data|) && have + |data| <= MAX_INT
    ensures ParseChunk(ChunkWire(line, data) + rest, final, have) == Parsed(Ok(data), rest)
  {
    var after := data + CRLF + rest;
    var s := ChunkWire(line, data) + rest;
    assert s == line + CRLF + after;
    HexHasNoCR(line);
    LineComplete(line, after, final);
    ChunkDataComplete(data, rest, final);
    hide ParseLine, ParseChunkData, HexValue, AllHex;
  }

  lemma LineComplete(line: Bytes, rest: Bytes, final: IoError)
    requires CR !in line
    ensures ParseLine(line + CRLF + rest, final) == Parsed(Ok(line), rest)
  {
    var s := line + CRLF + rest;
    FindAfterText(line, CRLF, rest);
    assert s[..|line|] == line && s[|line| + 2..] == rest;
  }

  lemma ChunkDataComplete(data: Bytes, rest: Bytes, final: IoError)
    ensures ParseChunkData(data + CRLF + rest, final, |data|) == Parsed(Ok(data), rest)
  {
    var s := data + CRLF + rest;
    assert s[..|data|] == data && s[|data|..] == CRLF + rest;
    assert (CRLF + rest)[..2] == CRLF && (CRLF + rest)[2..] == rest;
  }

  lemma ChunkSound(s: Bytes, final: IoError, have: nat) returns (line: Bytes)
    requires have <= MAX_INT
    requires ParseChunk(s, final, have).result.Ok?
    ensures var data := ParseChunk(s, final, have).result.value;
      && IsSizeLine(line, |data|) && have + |data| <= MAX_INT
      && s == ChunkWire(line, data) + ParseChunk(s, final, have).rest
  {
    hide ParseLine, ParseChunkData, HexValue, AllHex;
    line := ParseLine(s, final).result.value;
    var after := ParseLine(s, final).rest;
    LineSound(s, final);
    ChunkDataSound(after, final, HexValue(line));
    var p := ParseChunkData(after, final, HexValue(line));
    assert line + CRLF + (p.result.value + CRLF + p.rest) == ChunkWire(line, p.result.value) + p.rest;
  }

  lemma LineSound(s: Bytes, final: IoError)
    requires ParseLine(s, final).result.Ok?
    ensures s == ParseLine(s, final).result.value + CRLF + ParseLine(s, final).rest
  {
    var end := Find(s, CRLF);
    assert s == s[..end] + s[end..end + 2] + s[end + 2..];
  }

  lemma ChunkDataSound(s: Bytes, final: IoError, size: nat)
    requires ParseChunkData(s, final, size).result.Ok?
    ensures var p := ParseChunkData(s, final, size);
      |p.result.value| == size && s == p.result.value + CRLF + p.rest && p.rest == s[size + 2..]
  {
    assert s[size..][..2] == s[size..size + 2] && s[size..][2..] == s[size + 2..];
  }

  lemma {:induction false} ChunksComplete(chunks: seq<Chunk>, last: Bytes, rest: Bytes, final: IoError, have: nat)
    requires ValidChunks(chunks, last) && have + |ChunkedBody(chunks)| <= MAX_INT
    ensures ParseChunks(ChunkedWire(chunks, last) + rest, final, have) == Parsed(Ok(ChunkedBody(chunks)), rest)
    decreases |chunks|
  {
    hide ParseChunk;
    if chunks == [] {
      ChunkComplete(last, [], rest, final, have);
    } else {
      var c := chunks[0];
      var more := ChunkedWire(chunks[1..], last) + rest;
      assert ChunkedWire(chunks, last) + rest == ChunkWire(c.sizeLine, c.data) + more;
      ChunkComplete(c.sizeLine, c.data, more, final, have);
      ChunksComplete(chunks[1..], last, rest, final, have + |c.data|);
    }
  }

  lemma {:induction false} ChunksSound(s: Bytes, final: IoError, have: nat) returns (chunks: seq<Chunk>, last: Bytes)
    requires have <= MAX_INT
    requires ParseChunks(s, final, have).result.Ok?
    ensures ValidChunks(chunks, last)
    ensures s == ChunkedWire(chunks, last) + ParseChunks(s, final, have).rest
    ensures ParseChunks(s, final, have).result.value == ChunkedBody(chunks)
    ensures have + |ChunkedBody(chunks)| <= MAX_INT
    decreases |s|
  {
    hide ParseChunk;
    var chunk := ParseChunk(s, final, have);
    var line := ChunkSound(s, final, have);
    if chunk.result.value == [] {
      chunks, last := [], line;
    } else {
      var data := chunk.result.value;
      chunks, last := ChunksSound(chunk.rest, final, have + |data|);
      chunks := [Chunk(line, data)] + chunks;
      assert chunks[1..] + [] == chunks[1..];
    }
  }

  ghost predicate ChunkedAs(chunks: seq<Chunk>, last: Bytes, payload: Bytes, body: Bytes) {
    ValidChunks(chunks, last) && payload == ChunkedWire(chunks, last) && body == ChunkedBody(chunks) && |body| <= MAX_INT
  }

  ghost predicate IsChunkedPayload(payload: Bytes, body: Bytes) {
    exists chunks, last :: ChunkedAs(chunks, last, payload, body)
  }

  /** A chunked body is read exactly when the stream begins with a chunked encoding; then the
      result is the chunks' data and what follows the encoding is untouched. */
  lemma {:induction false} ChunkedIff(payload: Bytes, rest: Bytes, final: IoError, body: Bytes)
    ensures IsChunkedPayload(payload, body) <==> ParseChunks(payload + rest, final, 0) == Parsed(Ok(body), rest)
  {
    if IsChunkedPayload(payload, body) {
      var chunks, last :| ChunkedAs(chunks, last, payload, body);
      ChunksComplete(chunks, last, rest, final, 0);
    }
    if ParseChunks(payload + rest, final, 0) == Parsed(Ok(body), rest) {
      var chunks, last := ChunksSound(payload + rest, final, 0);
      SameSuffix(payload, ChunkedWire(chunks, last), rest);
      assert ChunkedAs(chunks, last, payload, body);
    }
  }

  lemma SameSuffix(a: Bytes, b: Bytes, rest: Bytes)
    requires a + rest == b + rest
    ensures a == b
  {
    assert |a| == |b|;
    assert a == (a + rest)[..|a|] == (b + rest)[..|b|] == b;
  }

  // ---------- framing headers ----------

  /** Repeated Content-Length values are accepted iff all are the same number. */
  lemma {:induction false} AgreedLengthIff(values: seq<Bytes>, i: nat, length: nat)
    requires i <= |values|
    ensures forall n: nat :: AgreedLength(values, i, length) == Ok(n) <==>
      (if i == |values| then n == length
       else (i > 0 ==> n == length) && forall k :: i <= k < |values| ==> Atoi(values[k]) == Some(n))
    decreases |values| - i
  {
    if i == |values| {
    } else {
      var v := Atoi(values[i]);
      if v.Some? && v.value >= 0 {
        AgreedLengthIff(values, i + 1, v.value);
      }
    }
  }

  lemma {:induction false} CommaStays(s: Bytes, dottedI: bool)
    requires COMMA in s
    ensures COMMA in LowerWord(s, dottedI)
  {
    if s[..Min(3, |s|)] == [0xE2, 0x84, 0xAA] {
      assert s == [0xE2, 0x84, 0xAA] + s[3..];
      CommaStays(s[3..], dottedI);
    } else if dottedI && s[..Min(2, |s|)] == [0xC4, 0xB0] {
      assert s == [0xC4, 0xB0] + s[2..];
      CommaStays(s[2..], dottedI);
    } else if s[0] != COMMA {
      assert s == [s[0]] + s[1..];
      CommaStays(s[1..], dottedI);
    }
  }

  /** There must be one coding and it must be the word chunked, in any case: a list of two is
      never accepted, not even chunked twice. U+212A counts as a k, as strings.EqualFold has it;
      for ASCII values the case is that of A to Z. */
  lemma {:induction false} ChunkedCodingIff(encodings: seq<Bytes>)
    ensures IsChunked(encodings) <==> |encodings| == 1 && LowerWord(encodings[0], false) == CHUNKED
    ensures |encodings| == 1 && (forall i :: 0 <= i < |encodings[0]| ==> encodings[0][i] < 128) ==>
      (IsChunked(encodings) <==> Lower(encodings[0]) == CHUNKED)
  {
    if |encodings| > 1 {
      CommaStays(Join(encodings, [COMMA]), false);
      assert COMMA !in CHUNKED;
    } else if |encodings| == 1 && forall i :: 0 <= i < |encodings[0]| ==> encodings[0][i] < 128 {
      LowerWordAscii(encodings[0], false);
    }
  }

  // ---------- header block ----------

  datatype Field = Field(name: Bytes, value: Bytes)

  predicate ValidField(f: Field) {
    ValidHeaderName(f.name) && ValidHeaderValue(f.value)
  }

  function FieldLine(f: Field): Bytes {
    f.name + [COLON] + f.value
  }

  function FieldLines(fields: seq<Field>): (lines: seq<Bytes>)
    ensures |lines| == |fields|
  {
    seq(|fields|, i requires 0 <= i < |fields| => FieldLine(fields[i]))
  }

  function RequestLine(m: Bytes, target: Bytes): Bytes {
    m + [SPACE] + (target + [SPACE] + VERSION)
  }

  function HeadLines(m: Bytes, target: Bytes, fields: seq<Field>): (lines: seq<Bytes>)
    ensures |lines| == 1 + |fields|
  {
    [RequestLine(m, target)] + FieldLines(fields)
  }

  function HeadWire(m: Bytes, target: Bytes, fields: seq<Field>): Bytes {
    Join(HeadLines(m, target, fields), CRLF)
  }

  lemma HeadWireIs(m: Bytes, target: Bytes, fields: seq<Field>)
    ensures HeadWire(m, target, fields) == Join(HeadLines(m, target, fields), CRLF)
  {
  }

  predicate ValidHead(m: Bytes, target: Bytes, fields: seq<Field>) {
    && ValidMethod(m) && ValidTarget(target) && SPACE !in target
    && |fields| <= MAX_HEADER_COUNT
    && (forall f <- fields :: ValidField(f))
    && LinesFit(HeadLines(m, target, fields))
  }

  /** The trimmed values of the fields with a given lower-case name, in order. */
  function ValuesNamed(fields: seq<Field>, name: Bytes): seq<Bytes> {
    if fields == [] then []
    else (if Lower(fields[0].name) == name then [Trim(fields[0].value, {SPACE, TAB})] else [])
         + ValuesNamed(fields[1..], name)
  }

  // The header map has a name iff some field has it, and lists that name's values in order.
  ghost predicate HeadersMatch(headers: Headers, fields: seq<Field>) {
    forall name: Bytes ::
      && (name in headers <==> ValuesNamed(fields, name) != [])
      && (name in headers ==> headers[name] == ValuesNamed(fields, name))
  }

  lemma MatchDeterminesHeaders(a: Headers, b: Headers, fields: seq<Field>)
    requires HeadersMatch(a, fields) && HeadersMatch(b, fields)
    ensures a == b
  {
    assert forall name <- a :: ValuesNamed(fields, name) != [] && name in b;
    assert forall name <- b :: ValuesNamed(fields, name) != [] && name in a;
  }

  lemma FieldComplete(f: Field)
    requires ValidField(f)
    ensures ParseField(FieldLine(f)) == Ok((Lower(f.name), Trim(f.value, {SPACE, TAB})))
    ensures CR !in FieldLine(f) && FieldLine(f) != []
  {
    hide Lower, Trim;
    assert !IsTokenByte(COLON) && !IsTokenByte(CR);
    FindAfterText(f.name, [COLON], f.value);
    var line := FieldLine(f);
    assert line[..|f.name|] == f.name && line[|f.name| + 1..] == f.value;
  }

  lemma FieldSound(line: Bytes) returns (f: Field)
    requires ParseField(line).Ok?
    ensures ValidField(f) && FieldLine(f) == line
  {
    hide Lower, Trim, ValidHeaderName, ValidHeaderValue;
    var colon := Find(line, [COLON]);
    f := Field(line[..colon], line[colon + 1..]);
    assert line == line[..colon] + line[colon..colon + 1] + line[colon + 1..];
  }

  lemma {:induction false} FieldsSound(lines: seq<Bytes>, headers: Headers) returns (fields: seq<Field>)
    requires ParseFields(lines, headers).Ok?
    ensures FieldLines(fields) == lines
    ensures forall f <- fields :: ValidField(f)
  {
    hide ParseField, FieldLine, Append, Lower, Trim;
    if lines == [] {
      fields := [];
    } else {
      var f := FieldSound(lines[0]);
      var p := ParseField(lines[0]).value;
      fields := FieldsSound(lines[1..], Append(headers, p.0, p.1));
      assert FieldLines([f] + fields) == [lines[0]] + lines[1..];
      fields := [f] + fields;
    }
  }

  function ValuesIn(headers: Headers, name: Bytes): seq<Bytes> {
    if name in headers then headers[name] else []
  }

  /** The parsed map holds what was there before followed by the values of the new fields. */
  lemma {:induction false} FieldsComplete(fields: seq<Field>, headers: Headers)
    requires forall f <- fields :: ValidField(f)
    requires forall name <- headers :: headers[name] != []
    ensures ParseFields(FieldLines(fields), headers).Ok?
    ensures var parsed := ParseFields(FieldLines(fields), headers).value;
      && (forall name <- parsed :: parsed[name] != [])
      && forall name: Bytes :: ValuesIn(parsed, name) == ValuesIn(headers, name) + ValuesNamed(fields, name)
    decreases |fields|
  {
    hide ParseField, FieldLine, Lower, Trim;
    if fields == [] {
    } else {
      var f := fields[0];
      assert ValidField(f);
      FieldComplete(f);
      assert FieldLines(fields)[1..] == FieldLines(fields[1..]);
      var next := Append(headers, Lower(f.name), Trim(f.value, {SPACE, TAB}));
      FieldsComplete(fields[1..], next);
      var parsed := ParseFields(FieldLines(fields), headers).value;
      assert parsed == ParseFields(FieldLines(fields[1..]), next).value;
      forall name: Bytes
        ensures ValuesIn(parsed, name) == ValuesIn(headers, name) + ValuesNamed(fields, name)
      {
        assert ValuesIn(next, name) + ValuesNamed(fields[1..], name) == ValuesIn(headers, name) + ValuesNamed(fields, name);
      }
    }
  }

  lemma RequestLineSplits(m: Bytes, target: Bytes)
    requires ValidMethod(m) && ValidTarget(target) && SPACE !in target
    ensures Split(RequestLine(m, target), [SPACE]) == [m, target, VERSION]
    ensures CR !in RequestLine(m, target) && RequestLine(m, target) != []
  {
    assert !IsMethodByte(SPACE) && !IsMethodByte(CR);
    var parts := [m, target, VERSION];
    JoinThree(m, target, VERSION, [SPACE]);
    assert SPACE !in VERSION && CR !in VERSION;
    SplitJoin(parts, [SPACE]);
  }

  lemma HeadLinesClean(m: Bytes, target: Bytes, fields: seq<Field>)
    requires ValidHead(m, target, fields)
    ensures forall line <- HeadLines(m, target, fields) :: CR !in line && line != []
  {
    RequestLineSplits(m, target);
    forall i | 0 <= i < |fields| ensures CR !in FieldLine(fields[i]) && FieldLine(fields[i]) != [] {
      assert fields[i] in fields;
      FieldComplete(fields[i]);
    }
  }

  lemma {:induction false} HeadComplete(m: Bytes, target: Bytes, fields: seq<Field>)
    requires ValidHead(m, target, fields)
    ensures ParseHead(HeadWire(m, target, fields)).Ok?
    ensures var head := ParseHead(HeadWire(m, target, fields)).value;
      && head == Request(m, target, VERSION, head.headers, [])
      && HeadersMatch(head.headers, fields)
  {
    hide ParseField, LinesFit;
    var lines := HeadLines(m, target, fields);
    HeadLinesClean(m, target, fields);
    SplitJoin(lines, CRLF);
    RequestLineSplits(m, target);
    assert lines[1..] == FieldLines(fields);
    FieldsComplete(fields, map[]);
    var headers := ParseFields(lines[1..], map[]).value;
    forall name: Bytes ensures ValuesIn(headers, name) == ValuesNamed(fields, name) {
      assert ValuesIn(map[], name) + ValuesNamed(fields, name) == ValuesNamed(fields, name);
    }
    MatchFromValues(headers, fields);
  }

  lemma MatchFromValues(headers: Headers, fields: seq<Field>)
    requires forall name: Bytes :: ValuesIn(headers, name) == ValuesNamed(fields, name)
    requires forall name <- headers :: headers[name] != []
    ensures HeadersMatch(headers, fields)
  {
    forall name: Bytes
      ensures name in headers <==> ValuesNamed(fields, name) != []
      ensures name in headers ==> headers[name] == ValuesNamed(fields, name)
    {
      assert ValuesIn(headers, name) == ValuesNamed(fields, name);
    }
  }

  lemma {:induction false} HeadSound(block: Bytes) returns (fields: seq<Field>)
    requires ParseHead(block).Ok?
    ensures var head := ParseHead(block).value;
      ValidHead(head.verb, head.target, fields) && block == HeadWire(head.verb, head.target, fields)
  {
    hide ParseField, LinesFit;
    var head := ParseHead(block).value;
    var lines := Split(block, CRLF);
    var parts := Split(lines[0], [SPACE]);
    fields := FieldsSound(lines[1..], map[]);
    JoinThree(head.verb, head.target, VERSION, [SPACE]);
    assert parts == [head.verb, head.target, VERSION];
    assert lines == HeadLines(head.verb, head.target, fields);
    ByteAbsent(head.target, SPACE);
  }

  /** Blocks of lines that are neither empty nor contain CR: the first blank line is the one
      that ends the block. */
  lemma {:induction false} BlankLineEndsBlock(lines: seq<Bytes>, rest: Bytes)
    requires lines != [] && forall line <- lines :: CR !in line && line != []
    ensures forall k :: 0 <= k < |Join(lines, CRLF)| ==> !OccursAt(Join(lines, CRLF) + BLANK_LINE + rest, BLANK_LINE, k)
  {
    var block := Join(lines, CRLF);
    var s := block + BLANK_LINE + rest;
    var first := lines[0];
    assert first in lines;
    if |lines| > 1 {
      var inner := Join(lines[1..], CRLF);
      assert forall line <- lines[1..] :: line in lines;
      BlankLineEndsBlock(lines[1..], rest);
      assert lines[1] in lines && lines[1..][0] == lines[1];
      assert lines[1] <= inner && inner[0] == lines[1][0];
      assert s == (first + CRLF) + (inner + BLANK_LINE + rest);
    }
    forall k | 0 <= k < |block| ensures !OccursAt(s, BLANK_LINE, k) {
      OccursByte(s, BLANK_LINE, k, 0);
      OccursByte(s, BLANK_LINE, k, 2);
      if k < |first| {
        assert s[k] == first[k];
      } else if k == |first| {
        assert s[k + 2] == Join(lines[1..], CRLF)[0];
      } else if k == |first| + 1 {
        assert s[k] == LF;
      } else {
        OccursLater(first + CRLF, Join(lines[1..], CRLF) + BLANK_LINE + rest, BLANK_LINE, k - |first| - 2);
      }
    }
  }

  /** Only the first line of a header block can be empty, because its end is the first blank line. */
  lemma {:induction false} NoEmptyLines(lines: seq<Bytes>, i: nat)
    requires 1 <= i < |lines| && lines[i] == []
    ensures exists k :: 0 <= k < |Join(lines, CRLF)| && OccursAt(Join(lines, CRLF) + BLANK_LINE, BLANK_LINE, k)
  {
    var s := Join(lines, CRLF) + BLANK_LINE;
    var inner := Join(lines[1..], CRLF);
    assert s == (lines[0] + CRLF) + (inner + BLANK_LINE);
    if i == 1 {
      assert inner == [] || inner == CRLF + Join(lines[1..][1..], CRLF);
      assert s[|lines[0]|..|lines[0]| + 4] == BLANK_LINE;
      assert OccursAt(s, BLANK_LINE, |lines[0]|);
    } else {
      NoEmptyLines(lines[1..], i - 1);
      var k :| 0 <= k < |inner| && OccursAt(inner + BLANK_LINE, BLANK_LINE, k);
      var j := |lines[0]| + 2 + k;
      assert s[j..j + 4] == (inner + BLANK_LINE)[k..k + 4];
      assert OccursAt(s, BLANK_LINE, j);
    }
  }

  /** The split lines are the header block, and no line after the first is empty. */
  lemma {:induction false} HeaderLines(s: Bytes)
    requires Find(s, BLANK_LINE) >= 0
    ensures var lines := Split(s[..Find(s, BLANK_LINE)], CRLF);
      && Join(lines, CRLF) == s[..Find(s, BLANK_LINE)]
      && forall i :: 1 <= i < |lines| ==> lines[i] != []
  {
    var end := Find(s, BLANK_LINE);
    var lines := Split(s[..end], CRLF);
    assert s == s[..end] + BLANK_LINE + s[end + 4..];
    forall i | 1 <= i < |lines| ensures lines[i] != [] {
      if lines[i] == [] {
        NoEmptyLines(lines, i);
        var k :| 0 <= k < end && OccursAt(s[..end] + BLANK_LINE, BLANK_LINE, k);
        OccursInExtension(s[..end] + BLANK_LINE, s[end + 4..], BLANK_LINE, k);
        assert false;
      }
    }
  }

  // ---------- the header map counts every line ----------

  ghost function TotalValues(headers: Headers): nat {
    if headers == map[] then 0
    else
      var name :| name in headers;
      |headers[name]| + TotalValues(headers - {name})
  }

  lemma {:induction false} TotalValuesPick(headers: Headers, name: Bytes)
    requires name in headers
    ensures TotalValues(headers) == |headers[name]| + TotalValues(headers - {name})
    decreases |headers|
  {
    var other :| other in headers && TotalValues(headers) == |headers[other]| + TotalValues(headers - {other});
    if other != name {
      TotalValuesPick(headers - {other}, name);
      TotalValuesPick(headers - {name}, other);
      assert headers - {other} - {name} == headers - {name} - {other};
    }
  }

  lemma {:induction false} TotalValuesOfFields(lines: seq<Bytes>, headers: Headers)
    requires ParseFields(lines, headers).Ok?
    ensures TotalValues(ParseFields(lines, headers).value) == TotalValues(headers) + |lines|
    decreases |lines|
  {
    hide ParseField;
    if lines == [] {
    } else {
      var (name, value) := ParseField(lines[0]).value;
      var next := Append(headers, name, value);
      TotalValuesPick(next, name);
      if name in headers {
        TotalValuesPick(headers, name);
        assert next - {name} == headers - {name};
      } else {
        assert next - {name} == headers;
      }
      TotalValuesOfFields(lines[1..], next);
    }
  }

  /** An accepted header block has as many header values as it has lines after the first,
      duplicates included, and at most MAX_HEADER_COUNT of them. */
  lemma {:induction false} EveryHeaderLineIsKept(block: Bytes)
    requires ParseHead(block).Ok?
    ensures TotalValues(ParseHead(block).value.headers) == |Split(block, CRLF)| - 1 <= MAX_HEADER_COUNT
  {
    hide ParseField, LinesFit;
    TotalValuesOfFields(Split(block, CRLF)[1..], map[]);
  }

  /** The Host rule: exactly one field of that name, and its trimmed value is not blank. */
  lemma {:induction false} HostIff(headers: Headers, fields: seq<Field>)
    requires HeadersMatch(headers, fields)
    ensures HasHost(headers) <==> |ValuesNamed(fields, HOST)| == 1 && !IsBlank(ValuesNamed(fields, HOST)[0])
  {
    var values := ValuesNamed(fields, HOST);
    if |values| == 1 {
      TrimSpaceIff(values[0]);
    }
    hide TrimSpace, IsBlank, ValuesNamed;
  }

  // ---------- whole requests ----------

  // What a client sends for one request.
  datatype Wire = Wire(verb: Bytes, target: Bytes, fields: seq<Field>, payload: Bytes)

  function Render(w: Wire): Bytes {
    HeadWire(w.verb, w.target, w.fields) + BLANK_LINE + w.payload
  }

  ghost predicate ValidPayload(payload: Bytes, headers: Headers, body: Bytes) {
    if TRANSFER_ENCODING in headers then
      IsChunked(headers[TRANSFER_ENCODING]) && CONTENT_LENGTH !in headers && IsChunkedPayload(payload, body)
    else
      payload == body &&
      if CONTENT_LENGTH in headers
      then forall value <- headers[CONTENT_LENGTH] :: Atoi(value) == Some(|body|)
      else body == []
  }

  /** `w` is a well-formed request and `q` is what it says. */
  ghost predicate IsRequest(w: Wire, q: Request) {
    && ValidHead(w.verb, w.target, w.fields)
    && |HeadWire(w.verb, w.target, w.fields)| + 4 <= MAX_HEADER_BYTES
    && q.verb == w.verb && q.target == w.target && q.version == VERSION
    && HeadersMatch(q.headers, w.fields)
    && HasHost(q.headers)
    && ValidPayload(w.payload, q.headers, q.body)
  }

  lemma PayloadIff(payload: Bytes, rest: Bytes, final: IoError, headers: Headers, body: Bytes)
    requires forall name <- headers :: headers[name] != []
    ensures ValidPayload(payload, headers, body) <==> ParseBody(payload + rest, final, headers) == Parsed(Ok(body), rest)
  {
    if TRANSFER_ENCODING in headers {
      ChunkedIff(payload, rest, final, body);
      hide ParseChunks, IsChunkedPayload;
    } else {
      var values := if CONTENT_LENGTH in headers then headers[CONTENT_LENGTH] else [];
      AgreedLengthIff(values, 0, 0);
      BytesIff(payload, rest, final, body);
      if AgreedLength(values, 0, 0).Ok? {
        var n := AgreedLength(values, 0, 0).value;
        assert forall v <- values :: Atoi(v) == Some(n);
        if n == |body| {
        } else if values != [] {
          assert values[0] in values;
        }
      }
    }
  }

  lemma BytesIff(payload: Bytes, rest: Bytes, final: IoError, body: Bytes)
    ensures forall n: nat ::
      ParseBytes(payload + rest, final, n) == Parsed(Ok(body), rest) <==> n == |body| && payload == body
  {
    CutAppended(payload, rest, |payload|);
    assert payload[..|payload|] == payload && payload[|payload|..] == [];
    forall n: nat
      ensures ParseBytes(payload + rest, final, n) == Parsed(Ok(body), rest) <==> n == |body| && payload == body
    {
      if ParseBytes(payload + rest, final, n) == Parsed(Ok(body), rest) {
        assert |(payload + rest)[n..]| == |rest|;
      }
    }
  }

  /** A printed request is read back, and nothing after it is touched. */
  lemma RequestComplete(w: Wire, q: Request, rest: Bytes, final: IoError)
    requires IsRequest(w, q)
    ensures ParseRequest(Render(w) + rest, final) == Parsed(Ok(q), rest)
  {
    hide ParseHead, ParseBody, HasHost, ValidHead, ValidPayload, HeadersMatch, HeadWire, Join, HeadLines;
    var block := HeadWire(w.verb, w.target, w.fields);
    assert block == Join(HeadLines(w.verb, w.target, w.fields), CRLF) by { HeadWireIs(w.verb, w.target, w.fields); }
    var s := Render(w) + rest;
    var after := w.payload + rest;
    assert s == block + BLANK_LINE + after;
    HeadLinesClean(w.verb, w.target, w.fields);
    BlankLineEndsBlock(HeadLines(w.verb, w.target, w.fields), after);
    assert s[|block|..|block| + 4] == BLANK_LINE;
    FindIs(s, BLANK_LINE, |block|);
    assert s[..|block|] == block && s[|block| + 4..] == after;
    HeadGives(w, q);
    HeadersNotEmpty(q.headers, w.fields);
    PayloadIff(w.payload, rest, final, q.headers, q.body);
  }

  lemma HeadGives(w: Wire, q: Request)
    requires ValidHead(w.verb, w.target, w.fields)
    requires q == Request(w.verb, w.target, VERSION, q.headers, q.body) && HeadersMatch(q.headers, w.fields)
    ensures ParseHead(HeadWire(w.verb, w.target, w.fields)) == Ok(q.(body := []))
  {
    hide ParseHead, ValidHead, HeadWire;
    HeadComplete(w.verb, w.target, w.fields);
    MatchDeterminesHeaders(ParseHead(HeadWire(w.verb, w.target, w.fields)).value.headers, q.headers, w.fields);
  }

  lemma HeadersNotEmpty(headers: Headers, fields: seq<Field>)
    requires HeadersMatch(headers, fields)
    ensures forall name <- headers :: headers[name] != []
  {
    assert forall name <- headers :: ValuesNamed(fields, name) != [];
  }

  /** Whatever is accepted was printed: the request is the stream up to the bytes left. */
  lemma RequestSound(s: Bytes, final: IoError) returns (w: Wire)
    requires ParseRequest(s, final).result.Ok?
    ensures IsRequest(w, ParseRequest(s, final).result.value)
    ensures s == Render(w) + ParseRequest(s, final).rest
  {
    hide ParseHead, ParseBody, HasHost, ValidPayload, ValidHead, HeadWire, ValuesNamed;
    var q, rest := ParseRequest(s, final).result.value, ParseRequest(s, final).rest;
    var end := Find(s, BLANK_LINE);
    var block := s[..end];
    var after := s[end + 4..];
    var fields := HeadSound(block);
    HeadComplete(q.verb, q.target, fields);
    HeadersNotEmpty(q.headers, fields);
    BodyLeavesSuffix(after, final, q.headers);
    var payload := after[..|after| - |rest|];
    assert after == payload + rest;
    PayloadIff(payload, rest, final, q.headers, q.body);
    w := Wire(q.verb, q.target, fields, payload);
    assert s == block + BLANK_LINE + after;
    assert s == Render(w) + rest;
  }

  lemma {:induction false} ChunksLeaveSuffix(s: Bytes, final: IoError, have: nat)
    requires have <= MAX_INT && ParseChunks(s, final, have).result.Ok?
    ensures var rest := ParseChunks(s, final, have).rest; |rest| <= |s| && rest == s[|s| - |rest|..]
  {
    var chunks, last := ChunksSound(s, final, have);
    hide ParseChunks;
  }

  lemma BodyLeavesSuffix(s: Bytes, final: IoError, headers: Headers)
    requires ParseBody(s, final, headers).result.Ok?
    ensures var rest := ParseBody(s, final, headers).rest; |rest| <= |s| && rest == s[|s| - |rest|..]
  {
    hide ParseChunks, IsChunked, AgreedLength;
    if TRANSFER_ENCODING in headers {
      ChunksLeaveSuffix(s, final, 0);
    }
  }

  /** The request parser accepts a stream with result `q`, leaving `rest`, exactly when the
      stream is a well-formed request saying `q` followed by `rest`. */
  lemma {:induction false} RequestIff(s: Bytes, final: IoError, q: Request, rest: Bytes)
    ensures ParseRequest(s, final) == Parsed(Ok(q), rest) <==> exists w :: IsRequest(w, q) && s == Render(w) + rest
  {
    hide IsRequest, Render, ParseRequest;
    if ParseRequest(s, final) == Parsed(Ok(q), rest) {
      var w := RequestSound(s, final);
    }
    if exists w :: IsRequest(w, q) && s == Render(w) + rest {
      var w :| IsRequest(w, q) && s == Render(w) + rest;
      RequestComplete(w, q, rest, final);
    }
  }

  /** Bytes that arrive later, and how the stream ends, do not change an accepted request. */
  lemma {:induction false} RequestExtends(s: Bytes, final: IoError, more: Bytes, final': IoError)
    requires ParseRequest(s, final).result.Ok?
    ensures var p := ParseRequest(s, final);
      ParseRequest(s + more, final') == Parsed(p.result, p.rest + more)
    ensures |ParseRequest(s, final).rest| < |s|
  {
    hide IsRequest, ParseRequest;
    var p := ParseRequest(s, final);
    var w := RequestSound(s, final);
    assert s + more == Render(w) + (p.rest + more);
    RequestComplete(w, p.result.value, p.rest + more, final');
  }

  lemma ChunkDataCut(s: Bytes, k: nat, final: IoError, size: nat)
    requires ParseChunkData(s, final, size).result.Ok?
    requires k <= |s|
    ensures ParseChunkData(s[..k], final, size) ==
      if k < size + 2 then Parsed(Err(CutShort(final)), [])
      else Parsed(Ok(s[..size]), s[size + 2..k])
  {
    var a := s[..k];
    if size <= k {
      assert a[..size] == s[..size];
      assert a[size..] == s[size..][..k - size];
    }
    if size + 2 <= k {
      assert a[size..][..2] == s[size..][..2];
      assert a[size..][2..] == s[size + 2..k];
    }
  }

  lemma LineCut(s: Bytes, k: nat, final: IoError)
    requires ParseLine(s, final).result.Ok? && k <= |s|
    ensures var p := ParseLine(s, final); var used := |s| - |p.rest|;
      && 0 < used && p.rest == s[used..]
      && if k < used then ParseLine(s[..k], final).result == Err(CutShort(final))
         else ParseLine(s[..k], final) == Parsed(p.result, p.rest[..k - used])
  {
    var end := Find(s, CRLF);
    var a := s[..k];
    assert s == a + s[k..];
    if Find(a, CRLF) != -1 {
      FindInExtension(a, s[k..], CRLF);
      assert a[..end] == s[..end] && a[end + 2..] == s[end + 2..][..k - end - 2];
    } else if end + 2 <= k {
      OccursInExtension(a, s[k..], CRLF, end);
    }
  }

  lemma ChunkCut(s: Bytes, k: nat, final: IoError, have: nat)
    requires ParseChunk(s, final, have).result.Ok?
    requires k <= |s|
    ensures var p := ParseChunk(s, final, have);
      && |p.rest| < |s| && p.rest == s[|s| - |p.rest|..]
      && if k < |s| - |p.rest| then ParseChunk(s[..k], final, have).result == Err(CutShort(final))
         else ParseChunk(s[..k], final, have) == Parsed(p.result, s[|s| - |p.rest|..k])
  {
    hide ParseLine, ParseChunkData, HexValue, AllHex;
    var size := HexValue(ParseLine(s, final).result.value);
    var after := ParseLine(s, final).rest;
    var used := |s| - |after|;
    LineCut(s, k, final);
    ChunkDataSound(after, final, size);
    assert after[size + 2..] == s[used + size + 2..];
    if used <= k {
      ChunkDataCut(after, k - used, final, size);
      if size + 2 <= k - used {
        assert after[size + 2..k - used] == s[used + size + 2..k];
        assert after[..size] == ParseChunkData(after, final, size).result.value;
      }
    }
  }

  lemma {:induction false} ChunksCut(s: Bytes, k: nat, final: IoError, have: nat)
    requires ParseChunks(s, final, have).result.Ok?
    requires k < |s| - |ParseChunks(s, final, have).rest|
    ensures ParseChunks(s[..k], final, have).result == Err(CutShort(final))
    decreases |s|
  {
    hide ParseChunk;
    var chunk := ParseChunk(s, final, have);
    ChunkCut(s, k, final, have);
    var used := |s| - |chunk.rest|;
    if k >= used && chunk.result.value != [] {
      assert s[used..k] == chunk.rest[..k - used];
      ChunksCut(chunk.rest, k - used, final, have + |chunk.result.value|);
    }
  }

  /** A request cut anywhere is reported as cut: io.EOF if nothing of it arrived, and
      io.ErrUnexpectedEOF (or the transport's error) if some of it did. */
  lemma {:induction false} RequestCut(s: Bytes, final: IoError, k: nat)
    requires ParseRequest(s, final).result.Ok?
    requires k < |s| - |ParseRequest(s, final).rest|
    ensures ParseRequest(s[..k], final).result == Err(if k == 0 then Ended(final) else CutShort(final))
  {
    hide ParseHead, ParseChunks, AgreedLength, HasHost, IsChunked;
    var end := Find(s, BLANK_LINE);
    var a := s[..k];
    assert s == a + s[k..];
    if Find(a, BLANK_LINE) == -1 {
      if end + 4 <= k {
        OccursInExtension(a, s[k..], BLANK_LINE, end);
      }
    } else {
      FindInExtension(a, s[k..], BLANK_LINE);
      assert a[..end] == s[..end];
      var after := s[end + 4..];
      assert a[end + 4..] == after[..k - end - 4];
      var head := ParseHead(s[..end]).value;
      if TRANSFER_ENCODING in head.headers {
        ChunksCut(after, k - end - 4, final, 0);
      }
    }
  }
}

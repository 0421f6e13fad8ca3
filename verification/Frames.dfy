/** Length-prefixed messages over a byte stream: the application protocol's four-byte frames
    and the two-byte frames of DNS over TCP (section 4.2.2 of RFC 1035). */
module Frames {
  import opened Bytes
  import opened Streams

  const MAX_FRAME_SIZE := 0x10_0000
  const MIN_DNS_SIZE := 12
  const MAX_DNS_SIZE := 65535

  datatype FrameError =
    | TooLarge
    | TooShort
    | EndOfStream               // io.EOF: nothing of the wanted bytes came
    | UnexpectedEnd             // io.ErrUnexpectedEOF: some of them came
    | Transport(code: int)
    | NotWritten(cause: WriteError)

  // A result together with the bytes left in the stream.
  datatype Framed = Framed(result: Result<Bytes, FrameError>, rest: Bytes)

  // The error of io.ReadFull after `got` bytes.
  function ReadFullError(final: IoError, got: nat): FrameError {
    match final
    case Failed(code) => Transport(code)
    case Eof => if got == 0 then EndOfStream else UnexpectedEnd
  }

  function TakeFull(s: Bytes, final: IoError, size: nat): Framed {
    if size <= |s| then Framed(Ok(s[..size]), s[size..])
    else Framed(Err(ReadFullError(final, |s|)), [])
  }

  method ReadExactly(source: Source, size: nat) returns (r: Result<Bytes, FrameError>)
    modifies source
    ensures Framed(r, source.Undelivered()) == TakeFull(old(source.Undelivered()), source.final, size)
  {
    var buffer := new byte[size];
    ghost var all := source.Undelivered();
    var err, got := source.ReadFull(buffer, 0);
    assert buffer[..] == buffer[0..size];
    if err.Some? {
      assert all[got..] == [];
      return Err(ReadFullError(err.value, got));
    }
    return Ok(buffer[..]);
  }

  // ---------- four-byte frames ----------

  function Frame(payload: Bytes): Bytes
    requires |payload| <= MAX_FRAME_SIZE
  {
    PutU32(|payload|) + payload
  }

  /** Write one frame; a payload over the limit writes nothing. */
  method WriteFrame(sink: Sink, payload: Bytes) returns (err: Option<FrameError>)
    modifies sink
    ensures err == Some(TooLarge) <==> |payload| > MAX_FRAME_SIZE
    ensures err == Some(TooLarge) ==> sink.written == old(sink.written)
    ensures err == None ==> sink.written == old(sink.written) + Frame(payload)
    ensures |payload| <= MAX_FRAME_SIZE ==> old(sink.written) <= sink.written <= old(sink.written) + Frame(payload)
    ensures old(sink.Willing()) ==> sink.Willing() && (err == None || err == Some(TooLarge))
  {
    if |payload| > MAX_FRAME_SIZE {
      return Some(TooLarge);
    }
    var header := PutU32(|payload|);
    var failure := sink.WriteAll(header);
    if failure.Some? {
      assert old(sink.written) + Frame(payload) == old(sink.written) + header + payload;
      return Some(NotWritten(failure.value));
    }
    failure := sink.WriteAll(payload);
    assert old(sink.written) + Frame(payload) == old(sink.written) + header + payload;
    if failure.Some? {
      return Some(NotWritten(failure.value));
    }
    return None;
  }

  function ParseFrame(s: Bytes, final: IoError): Framed {
    var header := TakeFull(s, final, 4);
    if header.result.Err? then header
    else
      var size := GetU32(header.result.value, 0);
      if size > MAX_FRAME_SIZE then Framed(Err(TooLarge), header.rest) else TakeFull(header.rest, final, size)
  }

  method ReadFrame(source: Source) returns (r: Result<Bytes, FrameError>)
    modifies source
    ensures Framed(r, source.Undelivered()) == ParseFrame(old(source.Undelivered()), source.final)
    // An oversized frame is refused with its payload still in the stream.
    ensures r == Err(TooLarge) ==> source.Undelivered() == old(source.Undelivered())[4..]
  {
    var header := ReadExactly(source, 4);
    if header.Err? {
      return header;
    }
    var size := GetU32(header.value, 0);
    if size > MAX_FRAME_SIZE {
      return Err(TooLarge);
    }
    r := ReadExactly(source, size);
  }

  /** A frame is read with payload `p`, leaving `rest`, exactly when the stream is that frame
      followed by `rest`. */
  lemma {:induction false} FrameIff(s: Bytes, final: IoError, p: Bytes, rest: Bytes)
    ensures ParseFrame(s, final) == Framed(Ok(p), rest) <==> |p| <= MAX_FRAME_SIZE && s == Frame(p) + rest
  {
    if |p| <= MAX_FRAME_SIZE && s == Frame(p) + rest {
      assert s[..4] == PutU32(|p|) && s[4..] == p + rest;
      CutAppended(p, rest, |p|);
      assert p[..|p|] == p && p[|p|..] + rest == rest;
    }
    if ParseFrame(s, final) == Framed(Ok(p), rest) {
      PutGetU32(s[..4], 0);
      assert s[..4][0..4] == s[..4];
      assert s[4..] == p + rest;
      assert s == s[..4] + s[4..];
    }
  }

  function FramesWire(payloads: seq<Bytes>): Bytes
    requires forall p <- payloads :: |p| <= MAX_FRAME_SIZE
  {
    if payloads == [] then [] else Frame(payloads[0]) + FramesWire(payloads[1..])
  }

  function ParseFrames(s: Bytes, final: IoError, count: nat): Option<(seq<Bytes>, Bytes)> {
    if count == 0 then Some(([], s))
    else
      var first := ParseFrame(s, final);
      if first.result.Err? then None
      else
        match ParseFrames(first.rest, final, count - 1)
        case None => None
        case Some((more, rest)) => Some(([first.result.value] + more, rest))
  }

  /** Messages written one frame each are read back as the same messages, and what follows
      the frames is untouched. */
  lemma {:induction false} FramesReadBack(payloads: seq<Bytes>, rest: Bytes, final: IoError)
    requires forall p <- payloads :: |p| <= MAX_FRAME_SIZE
    ensures ParseFrames(FramesWire(payloads) + rest, final, |payloads|) == Some((payloads, rest))
  {
    hide Frame, ParseFrame;
    if payloads == [] {
      assert [] + rest == rest;
    } else {
      var p, inner := payloads[0], FramesWire(payloads[1..]);
      assert p in payloads;
      assert FramesWire(payloads) + rest == Frame(p) + (inner + rest) by {
        assert FramesWire(payloads) == Frame(p) + inner;
        assert Frame(p) + inner + rest == Frame(p) + (inner + rest);
      }
      FrameIff(Frame(p) + (inner + rest), final, p, inner + rest);
      FramesReadBack(payloads[1..], rest, final);
      assert [p] + payloads[1..] == payloads;
    }
  }

  /** A frame cut after k bytes: io.EOF if the cut is before the header or right after it,
      and io.ErrUnexpectedEOF elsewhere. */
  lemma {:induction false} FrameCut(p: Bytes, k: nat, final: IoError)
    requires |p| <= MAX_FRAME_SIZE && k < |Frame(p)|
    ensures ParseFrame(Frame(p)[..k], final) == Framed(Err(ReadFullError(final, if k < 4 then k else k - 4)), [])
  {
    var s := Frame(p)[..k];
    if k >= 4 {
      assert s[..4] == PutU32(|p|) && |s[4..]| == k - 4;
    }
  }

  // ---------- two-byte frames ----------

  function ParseDnsFrame(s: Bytes, final: IoError): Framed {
    var prefix := TakeFull(s, final, 2);
    if prefix.result.Err? then prefix
    else
      var length := GetU16(prefix.result.value, 0);
      if length < MIN_DNS_SIZE then Framed(Err(TooShort), prefix.rest) else TakeFull(prefix.rest, final, length)
  }

  function DnsFrame(message: Bytes): Bytes
    requires |message| <= MAX_DNS_SIZE
  {
    PutU16(|message|) + message
  }

  /** One DNS exchange on an open connection. */
  method ExchangeTcp(sink: Sink, source: Source, query: Bytes) returns (r: Result<Bytes, FrameError>)
    modifies sink, source
    ensures |query| > MAX_DNS_SIZE ==> r == Err(TooLarge) && sink.written == old(sink.written)
    ensures |query| <= MAX_DNS_SIZE ==> old(sink.written) <= sink.written <= old(sink.written) + DnsFrame(query)
    ensures |query| <= MAX_DNS_SIZE && !(r.Err? && r.error.NotWritten?) ==>
      && sink.written == old(sink.written) + DnsFrame(query)
      && Framed(r, source.Undelivered()) == ParseDnsFrame(old(source.Undelivered()), source.final)
    ensures |query| > MAX_DNS_SIZE || (r.Err? && r.error.NotWritten?) ==> source.Undelivered() == old(source.Undelivered())
    ensures old(sink.Willing()) ==> !(r.Err? && r.error.NotWritten?)
  {
    if |query| > MAX_DNS_SIZE {
      return Err(TooLarge);
    }
    var frame := new byte[2 + |query|];
    CopyInto(frame, 0, PutU16(|query|));
    CopyInto(frame, 2, query);
    assert frame[..] == DnsFrame(query);
    var failure := sink.WriteAll(frame[..]);
    if failure.Some? {
      return Err(NotWritten(failure.value));
    }
    var prefix := ReadExactly(source, 2);
    if prefix.Err? {
      return prefix;
    }
    var length := GetU16(prefix.value, 0);
    if length < MIN_DNS_SIZE {
      return Err(TooShort);
    }
    r := ReadExactly(source, length);
  }

  /** A DNS message is read from the stream exactly when it stands there framed and has a
      length from 12 to 65535. */
  lemma {:induction false} DnsFrameIff(s: Bytes, final: IoError, m: Bytes, rest: Bytes)
    ensures ParseDnsFrame(s, final) == Framed(Ok(m), rest) <==>
      MIN_DNS_SIZE <= |m| <= MAX_DNS_SIZE && s == DnsFrame(m) + rest
  {
    if MIN_DNS_SIZE <= |m| <= MAX_DNS_SIZE && s == DnsFrame(m) + rest {
      DnsFrameComplete(m, rest, final);
    }
    if ParseDnsFrame(s, final) == Framed(Ok(m), rest) {
      DnsFrameSound(s, final);
    }
  }

  lemma DnsFrameComplete(m: Bytes, rest: Bytes, final: IoError)
    requires MIN_DNS_SIZE <= |m| <= MAX_DNS_SIZE
    ensures ParseDnsFrame(DnsFrame(m) + rest, final) == Framed(Ok(m), rest)
  {
    var s := DnsFrame(m) + rest;
    assert s[..2] == PutU16(|m|) && s[2..] == m + rest;
    hide PutU16, GetU16;
    CutAppended(m, rest, |m|);
    assert m[..|m|] == m && m[|m|..] + rest == rest;
  }

  lemma DnsFrameSound(s: Bytes, final: IoError)
    requires ParseDnsFrame(s, final).result.Ok?
    ensures var m := ParseDnsFrame(s, final).result.value;
      MIN_DNS_SIZE <= |m| <= MAX_DNS_SIZE && s == DnsFrame(m) + ParseDnsFrame(s, final).rest
  {
    PutGetU16(s[..2], 0);
    hide PutU16, GetU16;
    assert s[..2][0..2] == s[..2];
    var n := GetU16(s[..2], 0);
    assert s[2..] == s[2..][..n] + s[2..][n..];
    assert s == s[..2] + s[2..];
  }
}

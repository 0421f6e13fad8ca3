/** Matching a response to its query, collecting its addresses, and the lookup's choice among
    the datagrams that arrive. */
module DnsLookup {
  import opened Bytes
  import opened Streams
  import opened Frames
  import opened DnsName
  import opened DnsMessage
  import opened DnsLaws

  // ---------- validation ----------

  /** Names are the same up to ASCII letter case and one trailing dot. */
  predicate SameName(a: Bytes, b: Bytes) {
    Lower(TrimDot(a)) == Lower(TrimDot(b))
  }

  method EqualQuestionNames(a: Bytes, b: Bytes) returns (same: bool)
    ensures same == SameName(a, b)
  {
    var s, t := TrimDot(a), TrimDot(b);
    if |s| != |t| {
      return false;
    }
    for i := 0 to |s|
      invariant forall k :: 0 <= k < i ==> LowerByte(s[k]) == LowerByte(t[k])
    {
      var x, y := s[i], t[i];
      if x >= 65 && x <= 90 {
        x := x + 32;
      }
      if y >= 65 && y <= 90 {
        y := y + 32;
      }
      if x != y {
        assert Lower(s)[i] != Lower(t)[i];
        return false;
      }
    }
    return true;
  }

  datatype ResponseError = WrongId | NotResponse | WrongCount | WrongQuestions | WrongName | WrongType | WrongClass

  function ResponseFault(m: Message, id: uint16, q: Question): Option<ResponseError> {
    if m.header.id != id then Some(WrongId)
    else if !IsResponse(m.header.flags) then Some(NotResponse)
    else if m.header.qdCount != 1 then Some(WrongCount)
    else if |m.questions| != 1 then Some(WrongQuestions)
    else if !SameName(m.questions[0].name, q.name) then Some(WrongName)
    else if m.questions[0].qtype != q.qtype then Some(WrongType)
    else if m.questions[0].qclass != q.qclass then Some(WrongClass)
    else None
  }

  // ---------- extraction ----------

  predicate IsAnswer(r: Record, name: Bytes) {
    r.rtype == TYPE_A && r.rclass == CLASS_IN && SameName(r.name, name)
  }

  predicate HasAddress(r: Record) {
    r.rdataLen == 4 && |r.rdata| == 4
  }

  /** The addresses in records i, i+1, ..., or the index of the first malformed match. */
  function AddressesFrom(records: seq<Record>, name: Bytes, i: nat): Result<seq<Bytes>, nat>
    requires i <= |records|
    decreases |records| - i
  {
    if i == |records| then Ok([])
    else if !IsAnswer(records[i], name) then AddressesFrom(records, name, i + 1)
    else if !HasAddress(records[i]) then Err(i)
    else
      match AddressesFrom(records, name, i + 1)
      case Err(k) => Err(k)
      case Ok(more) => Ok([records[i].rdata] + more)
  }

  function Addresses(m: Message, q: Question): Result<seq<Bytes>, nat> {
    if q.qtype != TYPE_A || q.qclass != CLASS_IN then Ok([]) else AddressesFrom(m.answers, q.name, 0)
  }

  method ExtractARecords(m: Message, q: Question) returns (r: Result<seq<Bytes>, nat>)
    ensures r == Addresses(m, q)
  {
    var addresses: seq<Bytes> := [];
    if q.qtype != TYPE_A || q.qclass != CLASS_IN {
      return Ok(addresses);
    }
    ghost var all := AddressesFrom(m.answers, q.name, 0);
    assert all.Ok? ==> [] + all.value == all.value;
    for i := 0 to |m.answers|
      invariant AddressesFrom(m.answers, q.name, 0) ==
        match AddressesFrom(m.answers, q.name, i)
        case Err(k) => Err(k)
        case Ok(more) => Ok(addresses + more)
    {
      var record := m.answers[i];
      if record.rtype != TYPE_A || record.rclass != CLASS_IN {
        continue;
      }
      var same := EqualQuestionNames(record.name, q.name);
      hide SameName;
      if !same {
        continue;
      }
      if record.rdataLen != 4 || |record.rdata| != 4 {
        return Err(i);
      }
      var rest := AddressesFrom(m.answers, q.name, i + 1);
      if rest.Ok? {
        assert addresses + ([record.rdata] + rest.value) == addresses + [record.rdata] + rest.value;
      }
      addresses := addresses + [record.rdata];
    }
    assert addresses + [] == addresses;
    return Ok(addresses);
  }

  /** The matching records, in order. */
  function Answers(records: seq<Record>, name: Bytes): seq<Record> {
    if records == [] then []
    else (if IsAnswer(records[0], name) then [records[0]] else []) + Answers(records[1..], name)
  }

  function Rdata(records: seq<Record>): seq<Bytes> {
    seq(|records|, i requires 0 <= i < |records| => records[i].rdata)
  }

  /** All or nothing: the result is the data of every match, in order, exactly when every match
      is well formed; otherwise it names a match that is not, and no earlier one. */
  lemma {:induction false} AddressesIff(records: seq<Record>, name: Bytes, i: nat)
    requires i <= |records|
    ensures var r := AddressesFrom(records, name, i);
      && (r.Ok? <==> forall k :: i <= k < |records| && IsAnswer(records[k], name) ==> HasAddress(records[k]))
      && (r.Ok? ==> r.value == Rdata(Answers(records[i..], name)))
      && (r.Err? ==>
           && i <= r.error < |records| && IsAnswer(records[r.error], name) && !HasAddress(records[r.error])
           && forall k :: i <= k < r.error && IsAnswer(records[k], name) ==> HasAddress(records[k]))
    decreases |records| - i
  {
    hide IsAnswer, HasAddress;
    if i == |records| {
    } else {
      AddressesIff(records, name, i + 1);
      assert records[i..][1..] == records[i + 1..];
      var more := Answers(records[i + 1..], name);
      assert Rdata([records[i]] + more) == [records[i].rdata] + Rdata(more);
    }
  }

  // ---------- the lookup ----------

  datatype LookupError =
    | NotEncodable(encodeError: EncodeError)
    | NoResponse
    | Undecodable(decodeError: DecodeError)
    | TcpFailed
    | TcpUndecodable(tcpDecodeError: DecodeError)
    | TcpInvalid(fault: ResponseError)
    | StillTruncated
    | ServerError(code: nat)
    | BadAddress(index: nat)

  type Outcome = Result<seq<Bytes>, LookupError>

  // The size of the buffer that datagrams are received in.
  const BUFFER_SIZE := 65535

  /** What the buffer holds of each datagram. */
  function Received(packets: seq<Bytes>): seq<Bytes> {
    seq(|packets|, i requires 0 <= i < |packets| => packets[i][..Min(|packets[i]|, BUFFER_SIZE)])
  }

  /** The reply that a TCP exchange takes from the server's stream, if it succeeds. */
  function TcpReply(stream: Bytes, final: IoError): Option<Bytes> {
    match ParseDnsFrame(stream, final).result
    case Err(_) => None
    case Ok(message) => Some(message)
  }

  /** The network during one lookup: the datagrams that will arrive before receiving fails, and
      the two directions of the TCP connection, if the server accepts one. */
  class Network {
    var packets: seq<Bytes>
    var queries: seq<Bytes>  // sent over UDP
    var dialled: nat         // how often TCP was tried
    const accepts: bool
    const sink: Sink
    const source: Source

    constructor (packets: seq<Bytes>, accepts: bool, sink: Sink, source: Source)
      ensures this.packets == packets && this.accepts == accepts && this.sink == sink && this.source == source
      ensures queries == [] && dialled == 0
    {
      this.packets, this.accepts, this.sink, this.source := packets, accepts, sink, source;
      queries, dialled := [], 0;
    }

    method Send(query: Bytes)
      modifies this`queries
      ensures queries == old(queries) + [query]
    {
      queries := queries + [query];
    }

    method Receive() returns (packet: Option<Bytes>)
      modifies this`packets
      ensures old(packets) == [] ==> packet == None && packets == []
      ensures old(packets) != [] ==>
        packet == Some(Received(old(packets))[0]) && packets == old(packets)[1..]
    {
      if packets == [] {
        return None;
      }
      packet := Some(packets[0][..Min(|packets[0]|, BUFFER_SIZE)]);
      packets := packets[1..];
    }

    /** Dial and make one exchange; only a complete reply counts. */
    method Exchange(query: Bytes) returns (reply: Option<Bytes>)
      requires |query| <= MAX_DNS_SIZE
      modifies this`dialled, sink, source
      ensures dialled == old(dialled) + 1
      ensures accepts && old(sink.Willing()) ==>
        && reply == TcpReply(old(source.Undelivered()), source.final)
        && sink.written == old(sink.written) + DnsFrame(query)
      ensures reply.Some? ==>
        && accepts && reply == TcpReply(old(source.Undelivered()), source.final)
        && sink.written == old(sink.written) + DnsFrame(query)
      ensures old(sink.written) <= sink.written <= old(sink.written) + DnsFrame(query)
    {
      dialled := dialled + 1;
      if !accepts {
        return None;
      }
      var r := ExchangeTcp(sink, source, query);
      return if r.Ok? then Some(r.value) else None;
    }
  }

  // The loop goes on to the next datagram unless this one carries the query's ID and either
  // cannot be decoded or is a response to the question.
  predicate Decisive(packet: Bytes, id: uint16, q: Question) {
    && 2 <= |packet| && GetU16(packet, 0) == id
    && match Decoded(packet)
       case Err(_) => true
       case Ok(m) => ResponseFault(m, id, q) == None
  }

  predicate IsTruncatedReply(packet: Bytes) {
    match Decoded(packet)
    case Err(_) => false
    case Ok(m) => IsTruncated(m.header.flags)
  }

  function Conclude(m: Message, q: Question): Outcome {
    if ResponseCode(m.header.flags) != 0 then Err(ServerError(ResponseCode(m.header.flags)))
    else
      match Addresses(m, q)
      case Err(i) => Err(BadAddress(i))
      case Ok(addresses) => Ok(addresses)
  }

  function SettleTcp(reply: Option<Bytes>, id: uint16, q: Question): Outcome {
    match reply
    case None => Err(TcpFailed)
    case Some(packet) =>
      match Decoded(packet)
      case Err(e) => Err(TcpUndecodable(e))
      case Ok(m) =>
        var fault := ResponseFault(m, id, q);
        if fault.Some? then Err(TcpInvalid(fault.value))
        else if IsTruncated(m.header.flags) then Err(StillTruncated)
        else Conclude(m, q)
  }

  function Settle(packet: Bytes, reply: Option<Bytes>, id: uint16, q: Question): Outcome {
    match Decoded(packet)
    case Err(e) => Err(Undecodable(e))
    case Ok(m) => if IsTruncated(m.header.flags) then SettleTcp(reply, id, q) else Conclude(m, q)
  }

  /** The first decisive datagram, if there is one. */
  function Deciding(packets: seq<Bytes>, id: uint16, q: Question): Option<Bytes> {
    if packets == [] then None
    else if Decisive(packets[0], id, q) then Some(packets[0])
    else Deciding(packets[1..], id, q)
  }

  function OutcomeOf(packets: seq<Bytes>, reply: Option<Bytes>, id: uint16, q: Question): Outcome {
    match Deciding(packets, id, q)
    case None => Err(NoResponse)
    case Some(packet) => Settle(packet, reply, id, q)
  }

  predicate NeedsTcp(packets: seq<Bytes>, id: uint16, q: Question) {
    match Deciding(packets, id, q)
    case None => false
    case Some(packet) => IsTruncatedReply(packet)
  }

  method ValidateResponse(m: Message, id: uint16, q: Question) returns (fault: Option<ResponseError>)
    ensures fault == ResponseFault(m, id, q)
  {
    hide SameName;
    if m.header.id != id {
      return Some(WrongId);
    }
    if !IsResponse(m.header.flags) {
      return Some(NotResponse);
    }
    if m.header.qdCount != 1 {
      return Some(WrongCount);
    }
    if |m.questions| != 1 {
      return Some(WrongQuestions);
    }
    var received := m.questions[0];
    var same := EqualQuestionNames(received.name, q.name);
    if !same {
      return Some(WrongName);
    }
    if received.qtype != q.qtype {
      return Some(WrongType);
    }
    if received.qclass != q.qclass {
      return Some(WrongClass);
    }
    return None;
  }

  /** The lookup: the outcome is settled by the first decisive datagram, and there is one TCP
      exchange, of the same query, exactly when that datagram is truncated. `reply` is what the
      exchange gave. */
  method LookupA(net: Network, name: Bytes, id: uint16) returns (r: Outcome, ghost reply: Option<Bytes>)
    modifies net, net.sink, net.source
    ensures var q := Question(name, TYPE_A, CLASS_IN);
      match QueryWire(id, q)
      case Err(e) =>
        && r == Err(NotEncodable(e)) && net.queries == old(net.queries) && net.dialled == old(net.dialled)
        && net.sink.written == old(net.sink.written)
      case Ok(query) =>
        && r == OutcomeOf(Received(old(net.packets)), reply, id, q)
        && net.queries == old(net.queries) + [query]
        && (if NeedsTcp(Received(old(net.packets)), id, q) then
              && net.dialled == old(net.dialled) + 1
              && old(net.sink.written) <= net.sink.written <= old(net.sink.written) + DnsFrame(query)
              && (reply.Some? || (net.accepts && old(net.sink.Willing())) ==>
                   && net.accepts && net.sink.written == old(net.sink.written) + DnsFrame(query)
                   && reply == TcpReply(old(net.source.Undelivered()), net.source.final))
            else
              && net.dialled == old(net.dialled) && net.sink.written == old(net.sink.written)
              && net.source.Undelivered() == old(net.source.Undelivered()))
  {
    hide QueryWire, Decoded, ResponseFault, IsTruncated, ResponseCode, Addresses, GetU16, DnsFrame, ParseDnsFrame;
    reply := None;
    var q := Question(name, TYPE_A, CLASS_IN);
    var encoded := EncodeQuery(id, q);
    if encoded.Err? {
      return Err(NotEncodable(encoded.error)), reply;
    }
    var query := encoded.value;
    net.Send(query);
    ghost var all := Received(net.packets);
    while true
      invariant net.queries == old(net.queries) + [query] && net.dialled == old(net.dialled)
      invariant unchanged(net.sink) && unchanged(net.source)
      invariant Deciding(all, id, q) == Deciding(Received(net.packets), id, q)
      decreases |net.packets|
    {
      assert net.packets != [] ==> Received(net.packets)[1..] == Received(net.packets[1..]);
      var received := net.Receive();
      if received.None? {
        return Err(NoResponse), reply;
      }
      var packet := received.value;
      if |packet| < 2 || GetU16(packet, 0) != id {
        continue;
      }
      var decoded := DecodeMessage(packet);
      if decoded.Err? {
        return Err(Undecodable(decoded.error)), reply;
      }
      var message := decoded.value;
      var fault := ValidateResponse(message, id, q);
      if fault.Some? {
        continue;
      }
      if IsTruncated(message.header.flags) {
        var response := net.Exchange(query);
        reply := response;
        if response.None? {
          return Err(TcpFailed), reply;
        }
        decoded := DecodeMessage(response.value);
        if decoded.Err? {
          return Err(TcpUndecodable(decoded.error)), reply;
        }
        message := decoded.value;
        fault := ValidateResponse(message, id, q);
        if fault.Some? {
          return Err(TcpInvalid(fault.value)), reply;
        }
        if IsTruncated(message.header.flags) {
          return Err(StillTruncated), reply;
        }
      }
      if ResponseCode(message.header.flags) != 0 {
        return Err(ServerError(ResponseCode(message.header.flags))), reply;
      }
      var addresses := ExtractARecords(message, q);
      match addresses {
        case Err(i) => return Err(BadAddress(i)), reply;
        case Ok(found) => return Ok(found), reply;
      }
    }
  }

  // ---------- what decides a lookup ----------

  lemma {:induction false} DecidingAppend(a: seq<Bytes>, b: seq<Bytes>, id: uint16, q: Question)
    ensures Deciding(a + b, id, q) == if Deciding(a, id, q).Some? then Deciding(a, id, q) else Deciding(b, id, q)
    decreases |a|
  {
    hide Decisive;
    if a == [] {
      assert a + b == b;
    } else {
      assert (a + b)[0] == a[0] && (a + b)[1..] == a[1..] + b;
      DecidingAppend(a[1..], b, id, q);
    }
  }

  /** A datagram that is not decisive can be inserted or removed anywhere without effect on the
      outcome or on the use of TCP. */
  lemma {:induction false} IndecisiveIgnored(
      before: seq<Bytes>, packet: Bytes, after: seq<Bytes>, reply: Option<Bytes>, id: uint16, q: Question)
    requires !Decisive(packet, id, q)
    ensures OutcomeOf(before + [packet] + after, reply, id, q) == OutcomeOf(before + after, reply, id, q)
    ensures NeedsTcp(before + [packet] + after, id, q) == NeedsTcp(before + after, id, q)
  {
    hide Decisive;
    DecidingAppend(before, [packet] + after, id, q);
    DecidingAppend(before, after, id, q);
    assert before + [packet] + after == before + ([packet] + after);
    assert ([packet] + after)[1..] == after;
  }

  /** The first decisive datagram settles the lookup, whatever comes after it. */
  lemma {:induction false} DecisiveSettles(
      before: seq<Bytes>, packet: Bytes, after: seq<Bytes>, reply: Option<Bytes>, id: uint16, q: Question)
    requires forall p <- before :: !Decisive(p, id, q)
    requires Decisive(packet, id, q)
    ensures OutcomeOf(before + [packet] + after, reply, id, q) == Settle(packet, reply, id, q)
    ensures NeedsTcp(before + [packet] + after, id, q) == IsTruncatedReply(packet)
    decreases |before|
  {
    hide Decisive, Settle, IsTruncatedReply;
    if before == [] {
      assert before + [packet] + after == [packet] + after;
    } else {
      assert (before + [packet] + after)[1..] == before[1..] + [packet] + after;
      DecisiveSettles(before[1..], packet, after, reply, id, q);
      assert before[0] in before;
    }
  }

  /** After a truncated reply the outcome is that of the TCP exchange alone: the answers and the
      response code of the truncated reply have no part in it, nor has any later datagram. */
  lemma {:induction false} TruncatedMeansTcp(
      before: seq<Bytes>, packet: Bytes, after: seq<Bytes>, reply: Option<Bytes>, id: uint16, q: Question)
    requires forall p <- before :: !Decisive(p, id, q)
    requires Decisive(packet, id, q) && IsTruncatedReply(packet)
    ensures OutcomeOf(before + [packet] + after, reply, id, q) == SettleTcp(reply, id, q)
    ensures NeedsTcp(before + [packet] + after, id, q)
  {
    DecisiveSettles(before, packet, after, reply, id, q);
    hide Decisive, OutcomeOf, NeedsTcp;
  }

  /** The datagram's bytes answer the query: its ID, the QR bit, a count of one question, and
      right after the header the question, whose name may differ in case and in one trailing dot. */
  ghost predicate AnswersQuery(data: Bytes, id: uint16, q: Question) {
    && OccursAt(data, PutU16(id), 0) && |data| > 2 && 0x80 <= data[2] && OccursAt(data, PutU16(1), 4)
    && exists name, next :: QuestionStands(data, HEADER_SIZE, q.(name := name), next) && SameName(name, q.name)
  }

  lemma HeaderAnswers(data: Bytes, id: uint16)
    requires MessageAt(data).Ok?
    ensures var h := MessageAt(data).value.0.header;
      && |data| >= HEADER_SIZE
      && (h.id == id <==> OccursAt(data, PutU16(id), 0))
      && (IsResponse(h.flags) <==> 0x80 <= data[2])
      && (h.qdCount == 1 <==> OccursAt(data, PutU16(1), 4))
  {
    hide QuestionsAt, RecordsAt;
    PutGetU16(data, 0);
    PutGetU16(data, 4);
    GetAt(data, 0);
    GetAt(data, 4);
  }

  lemma OneQuestionStands(data: Bytes) returns (next: int)
    requires MessageAt(data).Ok? && |MessageAt(data).value.0.questions| == 1
    ensures QuestionAt(data, HEADER_SIZE) == Ok((MessageAt(data).value.0.questions[0], next))
    ensures QuestionStands(data, HEADER_SIZE, MessageAt(data).value.0.questions[0], next)
  {
    var m := MessageAt(data).value.0;
    var cuts := MessageSound(data);
    hide QuestionStands, QuestionAt, MessageAt, HeaderWire, OccursAt, RecordTiles;
    assert QuestionStands(data, cuts.questions[0], m.questions[0], cuts.questions[1]);
    next := cuts.questions[1];
    QuestionIff(data, HEADER_SIZE, m.questions[0], next);
  }

  /** A decoded response passes every check exactly when its bytes answer the query; the check
      of the decoded question list against the count is never the one that fails. */
  lemma {:induction false} ValidationIff(data: Bytes, id: uint16, q: Question)
    requires Decoded(data).Ok?
    ensures ResponseFault(Decoded(data).value, id, q) == None <==> AnswersQuery(data, id, q)
    ensures ResponseFault(Decoded(data).value, id, q) != Some(WrongQuestions)
  {
    hide SameName, QuestionStands, QuestionAt, MessageAt;
    var m := Decoded(data).value;
    MessageSizes(data);
    HeaderAnswers(data, id);
    if |m.questions| == 1 {
      var end := OneQuestionStands(data);
      var received := m.questions[0];
      forall name, next | QuestionStands(data, HEADER_SIZE, q.(name := name), next) ensures received == q.(name := name) {
        QuestionIff(data, HEADER_SIZE, q.(name := name), next);
      }
      if ResponseFault(m, id, q) == None {
        assert received == q.(name := received.name);
        assert QuestionStands(data, HEADER_SIZE, q.(name := received.name), end);
      }
    }
  }

  /** `data` may be used: it answers this query completely and without an error code. */
  ghost predicate Trusted(data: Bytes, id: uint16, q: Question) {
    && Decoded(data).Ok? && AnswersQuery(data, id, q)
    && !IsTruncated(Decoded(data).value.header.flags) && ResponseCode(Decoded(data).value.header.flags) == 0
  }

  /** Addresses come only from a message that answers the query: a datagram that arrived, or the
      TCP reply to it. */
  lemma {:induction false} AddressesAreTrusted(packets: seq<Bytes>, reply: Option<Bytes>, id: uint16, q: Question)
    returns (source: Bytes)
    requires OutcomeOf(packets, reply, id, q).Ok?
    ensures source in packets || (NeedsTcp(packets, id, q) && reply == Some(source))
    ensures Trusted(source, id, q)
    ensures Addresses(Decoded(source).value, q) == Ok(OutcomeOf(packets, reply, id, q).value)
  {
    hide Decoded, Addresses, ResponseFault, AnswersQuery, IsTruncated, ResponseCode, GetU16;
    var packet := Deciding(packets, id, q).value;
    DecidingIsDecisive(packets, id, q);
    source := if IsTruncatedReply(packet) then reply.value else packet;
    ValidationIff(source, id, q);
  }

  lemma {:induction false} DecidingIsDecisive(packets: seq<Bytes>, id: uint16, q: Question)
    requires Deciding(packets, id, q).Some?
    ensures Deciding(packets, id, q).value in packets && Decisive(Deciding(packets, id, q).value, id, q)
  {
    hide Decisive;
    if !Decisive(packets[0], id, q) {
      DecidingIsDecisive(packets[1..], id, q);
    }
  }
}

/** The round trip from a query to the addresses in its answer. */
module DnsAnswer {
  import opened Bytes
  import opened Streams
  import opened Frames
  import opened DnsName
  import opened DnsMessage
  import opened DnsLaws
  import opened DnsReach
  import opened DnsLookup

  // An IPv4 address and how long it may be cached.
  datatype Answer = Answer(ttl: uint32, address: Bytes)

  predicate ValidAnswers(answers: seq<Answer>) {
    |answers| < 0x1_0000 && forall i :: 0 <= i < |answers| ==> |answers[i].address| == 4
  }

  // The owner is a pointer to the question's name, right after the header.
  const OWNER: Bytes := [0xC0, 12]

  function AnswerWire(a: Answer): Bytes {
    OWNER + PutU16(TYPE_A) + PutU16(CLASS_IN) + PutU32(a.ttl) + PutU16(4) + a.address
  }

  function AnswersWire(answers: seq<Answer>): Bytes {
    if answers == [] then [] else AnswersWire(answers[..|answers| - 1]) + AnswerWire(answers[|answers| - 1])
  }

  function AddressList(answers: seq<Answer>): seq<Bytes> {
    seq(|answers|, i requires 0 <= i < |answers| => answers[i].address)
  }

  /** A server's response to a query: its ID and question echoed, with new flags and an answer
      count, and one A record for each address. */
  function ResponseTo(query: Bytes, flags: uint16, answers: seq<Answer>): Bytes
    requires HEADER_SIZE <= |query| && |answers| < 0x1_0000
  {
    query[..2] + PutU16(flags) + query[4..6] + PutU16(|answers|) + query[8..] + AnswersWire(answers)
  }

  function ResponseHeader(id: uint16, flags: uint16, count: uint16): Header {
    Header(id, flags, 1, count, 0, 0)
  }

  /** The echoed query is the response header followed by the question. */
  lemma ResponseIs(id: uint16, q: Question, flags: uint16, answers: seq<Answer>)
    requires QuestionWire(q).Ok? && |answers| < 0x1_0000
    ensures QueryWire(id, q).Ok?
    ensures ResponseTo(QueryWire(id, q).value, flags, answers) ==
      HeaderWire(ResponseHeader(id, flags, |answers|)) + QuestionWire(q).value + AnswersWire(answers)
  {
    hide PutU16, QuestionWire, AnswersWire;
    var question, zeros := QuestionWire(q).value, PutU16(0) + PutU16(0);
    HeaderFields(QueryHeader(id));
    HeaderFields(ResponseHeader(id, flags, |answers|));
    hide HeaderWire;
    Echo(PutU16(id), PutU16(FLAG_RD), PutU16(1), PutU16(0), zeros, question,
         PutU16(flags), PutU16(|answers|), AnswersWire(answers));
  }

  lemma HeaderFields(h: Header)
    ensures HeaderWire(h) == PutU16(h.id) + PutU16(h.flags) + PutU16(h.qdCount) + PutU16(h.anCount)
                             + (PutU16(h.nsCount) + PutU16(h.arCount))
  {
    hide PutU16;
    var front := PutU16(h.id) + PutU16(h.flags) + PutU16(h.qdCount) + PutU16(h.anCount);
    assert front + PutU16(h.nsCount) + PutU16(h.arCount) == front + (PutU16(h.nsCount) + PutU16(h.arCount));
  }

  // Replacing the second and the fourth field of a message.
  lemma Echo(a: Bytes, b: Bytes, c: Bytes, d: Bytes, e: Bytes, question: Bytes, b': Bytes, d': Bytes, more: Bytes)
    requires |a| == |b| == |c| == |d| == 2
    ensures var query := a + b + c + d + e + question;
      && 8 <= |query|
      && query[..2] + b' + query[4..6] + d' + query[8..] + more == a + b' + c + d' + e + question + more
  {
    var query := a + b + c + d + e + question;
    assert query[..2] == a && query[4..6] == c && query[8..] == e + question;
    assert a + b' + c + d' + (e + question) == a + b' + c + d' + e + question;
  }

  /** A record that is an answer's encoding, whatever stands around it, is decoded as that
      answer if its owner is. */
  lemma RecordFromWire(data: Bytes, pos: nat, a: Answer, name: Bytes)
    requires |a.address| == 4 && OccursAt(data, AnswerWire(a), pos)
    requires NameAt(data, pos) == Ok((name, pos + 2))
    ensures RecordAt(data, pos) == Ok((Record(name, TYPE_A, CLASS_IN, a.ttl, 4, a.address), pos + 16))
  {
    hide NameAt, PutU16, PutU32, GetU16, GetU32;
    var tail4 := PutU16(4) + a.address;
    var tail3 := PutU32(a.ttl) + tail4;
    var tail2 := PutU16(CLASS_IN) + tail3;
    var tail1 := PutU16(TYPE_A) + tail2;
    assert AnswerWire(a) == OWNER + tail1;
    OccursParts(data, OWNER, tail1, pos);
    OccursParts(data, PutU16(TYPE_A), tail2, pos + 2);
    OccursParts(data, PutU16(CLASS_IN), tail3, pos + 4);
    OccursParts(data, PutU32(a.ttl), tail4, pos + 6);
    OccursParts(data, PutU16(4), a.address, pos + 10);
    GetAt(data, pos + 2);
    GetAt(data, pos + 4);
    GetAt32(data, pos + 6);
    GetAt(data, pos + 10);
  }

  /** A pointer to an encoded name stands for that name. */
  lemma PointerToName(data: Bytes, pos: nat, name: Bytes)
    requires NameWire(name).Ok? && OccursAt(data, NameWire(name).value, 12)
    requires OccursAt(data, OWNER, pos)
    ensures NameAt(data, pos) == Ok((TrimDot(name), pos + 2))
  {
    hide NameWire;
    var labels := EncodedLabels(name);
    var hops := LabelHops(labels);
    LabelsUnfold(data, 12, labels);
    LabelHopsAre(labels, 12);
    OccursByte(data, OWNER, pos, 0);
    OccursByte(data, OWNER, pos, 1);
    hide Walk, OccursAt, LabelHops, LabelsWire, Join, FitLabels;
    var all := [Jump(12)] + hops;
    assert all[0] == Jump(12) && all[1..] == hops;
    assert Labels(all) == Labels(hops) && LabelBytes(all) == LabelBytes(hops) && Jumps(all) == 1 && End(pos, all) == pos + 2;
    assert Unfolds(data, pos, all);
    hide Labels, LabelBytes, Jumps, End, Unfolds;
    WalkComplete(data, pos, 0, 1, all);
  }

  function Records(answers: seq<Answer>, name: Bytes): seq<Record> {
    seq(|answers|, i requires 0 <= i < |answers| => Record(name, TYPE_A, CLASS_IN, answers[i].ttl, 4, answers[i].address))
  }

  lemma {:induction false} RecordsFromWire(front: Bytes, answers: seq<Answer>, rest: Bytes, name: Bytes)
    requires ValidAnswers(answers)
    requires NameWire(name).Ok? && OccursAt(front, NameWire(name).value, 12)
    ensures RecordsAt(front + AnswersWire(answers) + rest, |front|, |answers|) ==
      Ok((Records(answers, TrimDot(name)), |front| + 16 * |answers|))
    decreases |answers|
  {
    hide AnswerWire, NameWire, RecordAt, NameAt, TrimDot, OccursAt;
    var n := |answers| - 1;
    if n >= 0 {
      var before, last := answers[..n], answers[n];
      var wire := AnswerWire(last);
      var data := front + AnswersWire(answers) + rest;
      assert data == front + AnswersWire(before) + (wire + rest);
      RecordsFromWire(front, before, wire + rest, name);
      var pos := |front| + 16 * n;
      OneRecord(front, AnswersWire(before), last, rest, name);
      assert data == front + AnswersWire(before) + (AnswerWire(last) + rest);
      assert RecordsAt(data, |front|, n) == Ok((Records(before, TrimDot(name)), pos));
      var record := Record(TrimDot(name), TYPE_A, CLASS_IN, last.ttl, 4, last.address);
      assert Records(answers, TrimDot(name)) == Records(before, TrimDot(name)) + [record];
      assert |wire| == 16 by { AnswerSize(last); }
      AnswersSize(before);
    } else {
      assert Records(answers, TrimDot(name)) == [];
    }
  }

  lemma AnswerSize(a: Answer)
    requires |a.address| == 4
    ensures |AnswerWire(a)| == 16
  {
  }

  lemma {:induction false} AnswersSize(answers: seq<Answer>)
    requires ValidAnswers(answers)
    ensures |AnswersWire(answers)| == 16 * |answers|
    decreases |answers|
  {
    hide AnswerWire;
    if answers == [] {
    } else {
      AnswersSize(answers[..|answers| - 1]);
      AnswerSize(answers[|answers| - 1]);
    }
  }

  lemma OneRecord(front: Bytes, middle: Bytes, a: Answer, rest: Bytes, name: Bytes)
    requires |a.address| == 4
    requires NameWire(name).Ok? && OccursAt(front, NameWire(name).value, 12)
    ensures RecordAt(front + middle + (AnswerWire(a) + rest), |front| + |middle|) ==
      Ok((Record(TrimDot(name), TYPE_A, CLASS_IN, a.ttl, 4, a.address), |front| + |middle| + 16))
  {
    hide NameWire, RecordAt, NameAt, TrimDot;
    var data, pos := front + middle + (AnswerWire(a) + rest), |front| + |middle|;
    assert data == front + (middle + (AnswerWire(a) + rest));
    OccursInExtension(front, middle + (AnswerWire(a) + rest), NameWire(name).value, 12);
    var wire := AnswerWire(a);
    assert data[pos..pos + |wire|] == wire;
    assert wire == OWNER + wire[2..];
    OccursParts(data, OWNER, wire[2..], pos);
    hide AnswerWire;
    PointerToName(data, pos, name);
    RecordFromWire(data, pos, a, TrimDot(name));
  }

  // The message that a response decodes to.
  function ResponseMessage(id: uint16, q: Question, flags: uint16, answers: seq<Answer>): Message
    requires |answers| < 0x1_0000
  {
    Message(ResponseHeader(id, flags, |answers|), [q.(name := TrimDot(q.name))], Records(answers, TrimDot(q.name)), [], [])
  }

  lemma QuestionFromWire(front: Bytes, q: Question, rest: Bytes)
    requires QuestionWire(q).Ok?
    ensures NameWire(q.name).Ok?
    ensures var data := front + QuestionWire(q).value + rest;
      && QuestionAt(data, |front|) == Ok((q.(name := TrimDot(q.name)), |front| + |QuestionWire(q).value|))
      && OccursAt(front + QuestionWire(q).value, NameWire(q.name).value, |front|)
  {
    hide NameWire, NameAt, PutU16, GetU16, TrimDot;
    var name := NameWire(q.name).value;
    var data := front + QuestionWire(q).value + rest;
    var pos := |front| + |name|;
    assert data[|front|..pos] == name && data[pos..pos + 2] == PutU16(q.qtype) && data[pos + 2..pos + 4] == PutU16(q.qclass);
    assert (front + QuestionWire(q).value)[|front|..pos] == name;
    NameRoundTrip(q.name, data, |front|);
    GetAt(data, pos);
    GetAt(data, pos + 2);
  }

  lemma MessageFromParts(data: Bytes, h: Header, q: Question, next: int, records: seq<Record>, end: int)
    requires HEADER_SIZE <= |data| && HeaderAt(data) == h && h.qdCount == 1 && h.nsCount == h.arCount == 0
    requires QuestionAt(data, HEADER_SIZE) == Ok((q, next)) && RecordsAt(data, next, h.anCount) == Ok((records, end))
    ensures MessageAt(data) == Ok((Message(h, [q], records, [], []), end))
  {
    OneQuestion(data, HEADER_SIZE);
    NoRecords(data, end);
    hide HeaderAt, QuestionAt, QuestionsAt, RecordsAt;
  }

  /** A header with one question, a question and the announced answers are decoded as such. */
  lemma PartsDecode(h: Header, q: Question, answers: seq<Answer>)
    requires QuestionWire(q).Ok? && ValidAnswers(answers)
    requires h.qdCount == 1 && h.anCount == |answers| && h.nsCount == h.arCount == 0
    ensures var data := HeaderWire(h) + QuestionWire(q).value + AnswersWire(answers);
      MessageAt(data) == Ok((Message(h, [q.(name := TrimDot(q.name))], Records(answers, TrimDot(q.name)), [], []), |data|))
  {
    hide *;
    var front, question, wire := HeaderWire(h), QuestionWire(q).value, AnswersWire(answers);
    HeaderSize(h);
    HeaderFirst(h, question, wire);
    AnswersSize(answers);
    QuestionFromWire(front, q, wire);
    RecordsLast(front + question, answers, q.name);
    MessageFromParts(front + question + wire, h, q.(name := TrimDot(q.name)), |front| + |question|,
                     Records(answers, TrimDot(q.name)), |front + question| + 16 * |answers|);
  }

  lemma HeaderSize(h: Header)
    ensures |HeaderWire(h)| == 12 == HEADER_SIZE
  {
  }

  lemma HeaderFirst(h: Header, a: Bytes, b: Bytes)
    ensures HeaderAt(HeaderWire(h) + a + b) == h
  {
    var data := HeaderWire(h) + a + b;
    assert data[0..12] == HeaderWire(h);
    hide HeaderWire, HeaderAt;
    HeaderIff(data, h);
  }

  lemma RecordsLast(front: Bytes, answers: seq<Answer>, name: Bytes)
    requires ValidAnswers(answers)
    requires NameWire(name).Ok? && OccursAt(front, NameWire(name).value, 12)
    ensures RecordsAt(front + AnswersWire(answers), |front|, |answers|) ==
      Ok((Records(answers, TrimDot(name)), |front| + 16 * |answers|))
  {
    RecordsFromWire(front, answers, [], name);
    hide *;
    assert front + AnswersWire(answers) + [] == front + AnswersWire(answers);
  }

  /** Every response to a query is decoded to what it was made from, down to its last byte; each
      address adds 16 bytes to the query. */
  lemma {:induction false} ResponseDecodes(id: uint16, q: Question, flags: uint16, answers: seq<Answer>)
    requires QueryWire(id, q).Ok? && ValidAnswers(answers)
    ensures var query := QueryWire(id, q).value;
      var response := ResponseTo(query, flags, answers);
      && MessageAt(response) == Ok((ResponseMessage(id, q, flags, answers), |response|))
      && |response| == |query| + 16 * |answers|
  {
    hide HeaderWire, QuestionWire, AnswersWire, Records, TrimDot, ResponseTo, MessageAt;
    ResponseIs(id, q, flags, answers);
    AnswersSize(answers);
    PartsDecode(ResponseHeader(id, flags, |answers|), q, answers);
  }

  /** Every query that can be encoded is decoded as the one question it asks. */
  lemma {:induction false} QueryRoundTrip(id: uint16, q: Question)
    requires QueryWire(id, q).Ok?
    ensures var query := QueryWire(id, q).value;
      MessageAt(query) == Ok((Message(QueryHeader(id), [q.(name := TrimDot(q.name))], [], [], []), |query|))
  {
    hide HeaderWire, QuestionWire, TrimDot, MessageAt;
    PartsDecode(QueryHeader(id), q, []);
    assert AnswersWire([]) == [] && Records([], TrimDot(q.name)) == [];
    assert HeaderWire(QueryHeader(id)) + QuestionWire(q).value + [] == QueryWire(id, q).value;
  }

  lemma OneQuestion(data: Bytes, offset: int)
    requires QuestionAt(data, offset).Ok?
    ensures QuestionsAt(data, offset, 1) == Ok(([QuestionAt(data, offset).value.0], QuestionAt(data, offset).value.1))
  {
    hide QuestionAt;
    assert QuestionsAt(data, offset, 0) == Ok(([], offset));
    assert [] + [QuestionAt(data, offset).value.0] == [QuestionAt(data, offset).value.0];
  }

  lemma NoRecords(data: Bytes, offset: int)
    ensures RecordsAt(data, offset, 0) == Ok(([], offset))
  {
  }

  lemma TrimDotSame(name: Bytes)
    requires NameWire(name).Ok?
    ensures SameName(TrimDot(name), name)
  {
    var t := TrimDot(name);
    if t == [] {
      assert TrimDot([]) == [];
    } else {
      NoDotAtEnd(name);
    }
  }

  lemma NoDotAtEnd(name: Bytes)
    requires NameWire(name).Ok? && TrimDot(name) != []
    ensures TrimDot(TrimDot(name)) == TrimDot(name)
  {
    var labels := Split(TrimDot(name), [DOT]);
    LabelFaultIff(labels);
    hide NameWire, TrimDot, LabelFault;
    FitIff(labels);
    NoEmptyPieceIs(TrimDot(name));
    NoEmptyPieceUntrimmed(TrimDot(name));
  }

  lemma {:induction false} AllRecordsAnswer(answers: seq<Answer>, name: Bytes, asked: Bytes, i: nat)
    requires i <= |answers| && ValidAnswers(answers) && SameName(name, asked)
    ensures AddressesFrom(Records(answers, name), asked, i) == Ok(AddressList(answers)[i..])
    decreases |answers| - i
  {
    if i == |answers| {
    } else {
      AllRecordsAnswer(answers, name, asked, i + 1);
      assert AddressList(answers)[i..] == [answers[i].address] + AddressList(answers)[i + 1..];
    }
  }

  predicate Complete(flags: uint16) {
    IsResponse(flags) && !IsTruncated(flags) && ResponseCode(flags) == 0
  }

  /** The round trip: whatever the ID, the name, the flags of a response and the addresses, the
      response is taken for an answer; complete and successful, it yields exactly those addresses
      in order, as a datagram and over TCP. */
  lemma {:induction false} AnswerRoundTrip(
      id: uint16, name: Bytes, flags: uint16, answers: seq<Answer>, reply: Option<Bytes>)
    requires QueryWire(id, Question(name, TYPE_A, CLASS_IN)).Ok? && ValidAnswers(answers)
    requires IsResponse(flags)
    ensures var q := Question(name, TYPE_A, CLASS_IN);
      var response := ResponseTo(QueryWire(id, q).value, flags, answers);
      && Decoded(response).Ok?
      && ResponseFault(Decoded(response).value, id, q) == None
      && Addresses(Decoded(response).value, q) == Ok(AddressList(answers))
      && Decisive(response, id, q)
      && (IsTruncatedReply(response) <==> IsTruncated(flags))
      && (Complete(flags) ==>
           && Settle(response, reply, id, q) == Ok(AddressList(answers))
           && SettleTcp(Some(response), id, q) == Ok(AddressList(answers)))
  {
    var q := Question(name, TYPE_A, CLASS_IN);
    ResponseDecodes(id, q, flags, answers);
    ResponseIs(id, q, flags, answers);
    TrimDotSame(name);
    AllRecordsAnswer(answers, TrimDot(name), name, 0);
    assert AddressList(answers)[0..] == AddressList(answers);
    EchoesId(id, q, flags, answers);
    hide SameName, Records, AddressList, MessageAt, ResponseTo, QueryWire, GetU16, AddressesFrom, IsResponse;
  }

  // No datagram of `before` ends the loop.
  predicate NoneDecisive(before: seq<Bytes>, id: uint16, q: Question) {
    forall i :: 0 <= i < |before| ==> !Decisive(Received(before)[i], id, q)
  }

  lemma ReceivedAround(before: seq<Bytes>, packet: Bytes, after: seq<Bytes>, id: uint16, q: Question)
    requires NoneDecisive(before, id, q)
    ensures Received(before + [packet] + after) == Received(before) + Received([packet]) + Received(after)
    ensures forall p <- Received(before) :: !Decisive(p, id, q)
  {
    hide Decisive;
  }

  /** A complete and successful response that comes before any other decisive datagram gives the
      lookup its addresses exactly when it fits the receive buffer, as every list of up to 4079
      addresses does; cut by the buffer it ends the lookup. */
  lemma {:induction false} LookupRoundTrip(
      before: seq<Bytes>, after: seq<Bytes>, id: uint16, name: Bytes, flags: uint16, answers: seq<Answer>, reply: Option<Bytes>)
    requires QueryWire(id, Question(name, TYPE_A, CLASS_IN)).Ok? && ValidAnswers(answers)
    requires Complete(flags) && NoneDecisive(before, id, Question(name, TYPE_A, CLASS_IN))
    ensures var q := Question(name, TYPE_A, CLASS_IN);
      var query := QueryWire(id, q).value;
      var arriving := Received(before + [ResponseTo(query, flags, answers)] + after);
      && (|query| + 16 * |answers| <= BUFFER_SIZE <==> OutcomeOf(arriving, reply, id, q) == Ok(AddressList(answers)))
      && (|query| + 16 * |answers| > BUFFER_SIZE ==>
           OutcomeOf(arriving, reply, id, q).Err? && OutcomeOf(arriving, reply, id, q).error.Undecodable?)
      && !NeedsTcp(arriving, id, q)
  {
    var q := Question(name, TYPE_A, CLASS_IN);
    var response := ResponseTo(QueryWire(id, q).value, flags, answers);
    hide Decisive, IsTruncatedReply, Settle, SettleTcp, OutcomeOf, NeedsTcp, ResponseTo, MessageAt, AddressList;
    ResponseDecodes(id, q, flags, answers);
    AnswerRoundTrip(id, name, flags, answers, reply);
    ReceivedAround(before, response, after, id, q);
    var packet := response[..Min(|response|, BUFFER_SIZE)];
    assert Received([response]) == [packet];
    if |response| <= BUFFER_SIZE {
      assert packet == response;
    } else {
      CutResponse(id, q, flags, answers, reply);
    }
    DecisiveSettles(Received(before), packet, Received(after), reply, id, q);
  }

  /** A response cut by the buffer is decisive, and useless. */
  lemma CutResponse(id: uint16, q: Question, flags: uint16, answers: seq<Answer>, reply: Option<Bytes>)
    requires QueryWire(id, q).Ok? && ValidAnswers(answers)
    requires |ResponseTo(QueryWire(id, q).value, flags, answers)| > BUFFER_SIZE
    ensures var packet := ResponseTo(QueryWire(id, q).value, flags, answers)[..BUFFER_SIZE];
      && Decisive(packet, id, q) && !IsTruncatedReply(packet)
      && Settle(packet, reply, id, q).Err? && Settle(packet, reply, id, q).error.Undecodable?
  {
    hide ResponseTo, MessageAt, QueryWire, GetU16, MessageReach;
    var response := ResponseTo(QueryWire(id, q).value, flags, answers);
    ResponseDecodes(id, q, flags, answers);
    EchoesId(id, q, flags, answers);
    PrefixIff(response, BUFFER_SIZE);
    assert response == response[..BUFFER_SIZE] + response[BUFFER_SIZE..];
    IdInPrefix(response, BUFFER_SIZE);
  }

  lemma IdInPrefix(data: Bytes, k: nat)
    requires 2 <= k <= |data|
    ensures GetU16(data[..k], 0) == GetU16(data, 0)
  {
  }

  lemma ReceivedWhole(packet: Bytes)
    requires |packet| <= BUFFER_SIZE
    ensures Received([packet]) == [packet]
  {
    assert packet[..|packet|] == packet;
  }

  lemma FramedReply(response: Bytes, rest: Bytes, final: IoError)
    requires MIN_DNS_SIZE <= |response| <= MAX_DNS_SIZE
    ensures TcpReply(DnsFrame(response) + rest, final) == Some(response)
  {
    hide DnsFrame, ParseDnsFrame;
    DnsFrameIff(DnsFrame(response) + rest, final, response, rest);
  }

  /** The whole exchange over both transports: a truncated answer to the query, whatever it lists,
      and then the complete answer framed on the TCP stream give exactly the complete answer's
      addresses. */
  lemma {:induction false} TcpRoundTrip(
      before: seq<Bytes>, after: seq<Bytes>, id: uint16, name: Bytes, cut: uint16, some: seq<Answer>,
      flags: uint16, answers: seq<Answer>, rest: Bytes, final: IoError)
    requires QueryWire(id, Question(name, TYPE_A, CLASS_IN)).Ok? && ValidAnswers(some) && ValidAnswers(answers)
    requires NoneDecisive(before, id, Question(name, TYPE_A, CLASS_IN))
    requires IsResponse(cut) && IsTruncated(cut) && Complete(flags)
    requires var query := QueryWire(id, Question(name, TYPE_A, CLASS_IN)).value;
      |query| + 16 * |some| <= BUFFER_SIZE && |query| + 16 * |answers| <= MAX_DNS_SIZE
    ensures var q := Question(name, TYPE_A, CLASS_IN);
      var query := QueryWire(id, q).value;
      var arriving := Received(before + [ResponseTo(query, cut, some)] + after);
      var response := ResponseTo(query, flags, answers);
      && |response| <= MAX_DNS_SIZE
      && NeedsTcp(arriving, id, q)
      && OutcomeOf(arriving, TcpReply(DnsFrame(response) + rest, final), id, q) == Ok(AddressList(answers))
  {
    var q := Question(name, TYPE_A, CLASS_IN);
    var query := QueryWire(id, q).value;
    hide Decisive, IsTruncatedReply, Settle, SettleTcp, OutcomeOf, NeedsTcp;
    hide ResponseTo, MessageAt, AddressList, DnsFrame, ParseDnsFrame;
    var packet, response := ResponseTo(query, cut, some), ResponseTo(query, flags, answers);
    ResponseDecodes(id, q, cut, some);
    ResponseDecodes(id, q, flags, answers);
    FramedReply(response, rest, final);
    AnswerRoundTrip(id, name, cut, some, None);
    AnswerRoundTrip(id, name, flags, answers, None);
    ReceivedAround(before, packet, after, id, q);
    ReceivedWhole(packet);
    hide TcpReply, Received, NoneDecisive, QueryWire, Decoded, Addresses, ResponseFault;
    TruncatedMeansTcp(Received(before), packet, Received(after), Some(response), id, q);
  }

  lemma EchoesId(id: uint16, q: Question, flags: uint16, answers: seq<Answer>)
    requires QueryWire(id, q).Ok? && |answers| < 0x1_0000
    ensures var response := ResponseTo(QueryWire(id, q).value, flags, answers);
      2 <= |response| && GetU16(response, 0) == id
  {
    hide QuestionWire, AnswersWire;
    var response := ResponseTo(QueryWire(id, q).value, flags, answers);
    assert response[0..2] == PutU16(id);
    GetAt(response, 0);
  }
}
